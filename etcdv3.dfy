/**
 * The etcd v3 backend. A domain `<slug>.<Domain>` lives under
 * `Prefix + PathOf(<slug>.<Domain>)`: its hosts are keys one level below, each of
 * its subdomains `<label>.<slug>.<Domain>` is a directory `<path>/<label>` with host
 * keys of its own, and a TXT record is a single key holding {"text":...}. A token
 * for each domain is kept under "/tokenv3" and a slug in use is frozen under
 * `Prefix + "/frozenv3"`.
 */
module Etcdv3 {
  import opened GoStrings
  import opened Outcomes
  import opened EtcdKeys

  const TokenPath := "/tokenv3"
  const FrozenPath := "/frozenv3"
  const MaxSlugHashTimes := 100

  datatype Error =
    | NotValidFqdn     // errNotValidFqdn: a TXT name too close to the domain
    | EmptyRecord      // errEmptyRecord: a key that has to exist does not
    | Unmarshal        // a value that is not a JSON object
    | IndexOutOfRange  // a Go run-time panic on a slice index

  // ---------------------------------------------------------------------------
  // Paths

  /** getPath: the store path of a name. */
  function GetPath(prefix: string, fqdn: string): string {
    prefix + PathOf(fqdn)
  }

  /** The path of `<label>.<fqdn>` is the directory `<label>` below the path of `fqdn`. */
  lemma GetPathOfSubdomain(prefix: string, l: string, fqdn: string)
    requires '.' !in l
    ensures GetPath(prefix, l + "." + fqdn) == GetPath(prefix, fqdn) + "/" + l
  {
    PathOfSubdomain(l, fqdn);
  }

  /** getTokenPath: one key below "/tokenv3" per name, named after the name with its dots escaped. */
  function GetTokenPath(fqdn: string): (r: string)
    ensures HasPrefix(r, TokenPath + "/")
    ensures '.' !in r[|TokenPath| + 1..] && |r| == |TokenPath| + 1 + |fqdn|
  {
    TokenPath + "/" + FormatKey(fqdn)
  }

  /** Names without "_" have distinct token keys. */
  lemma TokenPathInjective(a: string, b: string)
    requires '_' !in a && '_' !in b
    requires GetTokenPath(a) == GetTokenPath(b)
    ensures a == b
  {
    assert FormatKey(a) == GetTokenPath(a)[|TokenPath| + 1..];
    assert FormatKey(b) == GetTokenPath(b)[|TokenPath| + 1..];
    FormatKeyInjective(a, b);
  }

  /** The key checkSlugName and lockSlugName use for a slug. */
  function FrozenKey(prefix: string, slug: string): string {
    prefix + FrozenPath + "/" + slug
  }

  // ---------------------------------------------------------------------------
  // findSlugWithZone and findSubPrefix

  /** The facts about SplitN that findSlugWithZone relies on. */
  lemma SlugPiece(fqdn: string, n: int)
    requires n < |Labels(fqdn)|
    ensures n == 0 <==> |SplitN(fqdn, ".", n)| == 0
    ensures var ss := SplitN(fqdn, ".", n); n != 0 ==>
      var last := ss[|ss| - 1];
      |Labels(last)| >= 1 &&
      (n > 0 ==> Labels(last)[0] == Labels(fqdn)[n - 1]) &&
      (n < 0 ==> Labels(last)[0] == Labels(fqdn)[|Labels(fqdn)| - 1])
  {
    var ls := Labels(fqdn);
    LabelsNoDot(fqdn);
    if n == 0 {
    } else if n > 0 {
      SplitNLabels(fqdn, n);
      var last := SplitN(fqdn, ".", n)[n - 1];
      LabelsOfJoin(ls[n - 1..]);
    } else {
      PiecesUnlimited(fqdn, ".", false, n);
      assert SplitN(fqdn, ".", n) == ls;
      LabelsOfLabel(ls[|ls| - 1]);
    }
  }

  /**
   * findSlugWithZone: with n the number of labels the fqdn has beyond the domain,
   * the first label of the n-th piece of SplitN(fqdn, ".", n). That is the label
   * right before the domain's labels when n > 0 and the last label when n < 0;
   * n == 0 gives no pieces and the index panics.
   */
  function FindSlugWithZone(fqdn: string, domain: string): (r: Result<string, Error>)
    ensures var n := |Labels(fqdn)| - |Labels(domain)|;
      (r.Err? <==> n == 0) &&
      (n > 0 ==> r == Ok(Labels(fqdn)[n - 1])) &&
      (n < 0 ==> r == Ok(Labels(fqdn)[|Labels(fqdn)| - 1]))
  {
    var n := |Labels(fqdn)| - |Labels(domain)|;
    var ss := SplitN(fqdn, ".", n);
    LabelsNoDot(domain);
    SlugPiece(fqdn, n);
    if |ss| == 0 then Err(IndexOutOfRange)
    else Ok(Labels(ss[|ss| - 1])[0])
  }

  /** The example of findSlugWithZone's comment. */
  lemma FindSlugWithZoneExample(fqdn: string, domain: string)
    requires fqdn == "yyyy.xxxx.qrn7oq.lb.rancher.cloud" && domain == "lb.rancher.cloud"
    ensures FindSlugWithZone(fqdn, domain) == Ok("qrn7oq")
  {
    assert fqdn == "yyyy" + "." + "xxxx" + "." + "qrn7oq" + "." + domain by {
      assert fqdn == "yyyy.xxxx." + "qrn7oq." + domain;
    }
    FindSlugBelowTwo("yyyy", "xxxx", "qrn7oq", domain);
  }

  /** With two labels in front of it, the slug is still the label just left of the domain. */
  lemma FindSlugBelowTwo(x: string, y: string, slug: string, domain: string)
    requires '.' !in x && '.' !in y && '.' !in slug
    ensures FindSlugWithZone(x + "." + y + "." + slug + "." + domain, domain) == Ok(slug)
  {
    var rest2 := slug + "." + domain;
    var rest1 := y + "." + rest2;
    var fqdn := x + "." + rest1;
    assert fqdn == x + "." + y + "." + slug + "." + domain;
    LabelsInFront(slug, domain);
    LabelsInFront(y, rest2);
    LabelsInFront(x, rest1);
    assert Labels(fqdn)[..3] == [x, y, slug];
  }

  /** The slug of `_acme-challenge.<slug>.<domain>` is `<slug>`. */
  lemma FindSlugOfChallenge(challenge: string, slug: string, domain: string)
    requires '.' !in challenge && '.' !in slug
    ensures FindSlugWithZone(challenge + "." + slug + "." + domain, domain) == Ok(slug)
  {
    LabelsConcat(challenge, slug + "." + domain);
    LabelsConcat(slug, domain);
    LabelsOfLabel(challenge);
    LabelsOfLabel(slug);
    assert challenge + "." + slug + "." + domain == challenge + "." + (slug + "." + domain);
  }

  /**
   * findSubPrefix: "" for the base path itself; otherwise the first "/"-segment
   * of what follows the first occurrence of `base` in `path`. A path in which
   * `base` does not occur, or is not followed by "/" and a segment, panics.
   */
  function FindSubPrefix(path: string, base: string): Result<string, Error> {
    if path == base then Ok("")
    else
      var ss := Split(path, base);
      if |ss| < 2 then Err(IndexOutOfRange)
      else
        var prefix := Split(ss[1], "/");
        if |prefix| < 2 then Err(IndexOutOfRange)
        else Ok(prefix[1])
  }

  /**
   * For a key below the base, `base/<segment>` optionally followed by more
   * "/"-segments, findSubPrefix returns the segment, provided the base does not
   * occur again after its first occurrence.
   */
  lemma FindSubPrefixOfKey(base: string, segment: string, tail: string)
    requires base != "" && '/' !in segment
    requires tail == "" || tail[0] == '/'
    requires !Contains("/" + segment + tail, base)
    ensures FindSubPrefix(base + "/" + segment + tail, base) == Ok(segment)
  {
    var suffix := "/" + segment + tail;
    var path := base + suffix;
    assert path == base + "/" + segment + tail;
    SplitAtBase(base, suffix);
    SegmentAfterSlash(segment, tail);
  }

  /** Splitting `base + suffix` at `base`, when `base` does not occur in `suffix`. */
  lemma SplitAtBase(base: string, suffix: string)
    requires base != "" && !Contains(suffix, base)
    ensures Split(base + suffix, base) == ["", suffix]
  {
    var path := base + suffix;
    assert path[..|base|] == base;
    assert path[|base|..] == suffix;
    assert Pieces(suffix, base, false, -1) == [suffix];
  }

  /** The second "/"-piece of `"/" + segment + tail` is the segment. */
  lemma SegmentAfterSlash(segment: string, tail: string)
    requires '/' !in segment
    requires tail == "" || tail[0] == '/'
    ensures var ps := Split("/" + segment + tail, "/"); |ps| >= 2 && ps[1] == segment
  {
    var suffix := "/" + segment + tail;
    assert suffix == "" + ['/'] + (segment + tail);
    SplitConcat("", '/', segment + tail);
    assert Pieces("", "/", false, -1) == [""];
    SplitNoSep(segment, '/', false, -1);
    if tail == "" {
      assert segment + tail == segment;
    } else {
      assert segment + tail == segment + ['/'] + tail[1..];
      SplitConcat(segment, '/', tail[1..]);
    }
  }

  /** The example of findSubPrefix's comment. */
  lemma FindSubPrefixExample(path: string, base: string)
    requires base == "/rdnsv3/cloud/rancher/lb/jc1af" && path == base + "/x1/1_1_1_1"
    ensures FindSubPrefix(path, base) == Ok("x1")
  {
    assert Index("/x1" + "/1_1_1_1", base) == -1;
    FindSubPrefixOfKey(base, "x1", "/1_1_1_1");
    assert base + "/" + "x1" + "/1_1_1_1" == path;
  }

  /** A path that is not the base and does not contain it panics. */
  lemma FindSubPrefixOutside(path: string, base: string)
    requires base != "" && path != base && !Contains(path, base)
    ensures FindSubPrefix(path, base) == Err(IndexOutOfRange)
  {
  }

  // ---------------------------------------------------------------------------
  // The TXT name check

  /** The check SetText, GetText and UpdateText start with. */
  predicate TextFqdnValid(fqdn: string, domain: string) {
    |Labels(fqdn)| - |Labels(domain)| > 1
  }

  /** A TXT name `<a>.<domain>` passes exactly when `<a>` has more than one label. */
  lemma TextFqdnDepth(a: string, domain: string)
    ensures TextFqdnValid(a + "." + domain, domain) <==> '.' in a
  {
    LabelsConcat(a, domain);
    LabelCount(a);
  }

  // ---------------------------------------------------------------------------
  // Reading host keys (lookupKeys followed by the unmarshal loop)

  /** A key lookupKeys keeps: an empty value, or one that decodes and has no "text" field. */
  predicate Kept(kv: map<string, string>, k: string)
    requires k in kv
  {
    kv[k] == "" || (ParseField(kv[k]).Some? && !IsTextValue(kv[k]))
  }

  /** The keys lookupKeys returns for a prefix. */
  function ListedKeys(kv: map<string, string>, p: string): set<string> {
    set k | k in kv && HasPrefix(k, p) && Kept(kv, k)
  }

  /** The "host" entries of those of `keys` that decode. */
  function HostsOfKeys(kv: map<string, string>, keys: set<string>): set<string>
    requires keys <= kv.Keys
  {
    set k | k in keys && ParseField(kv[k]).Some? && !IsTextValue(kv[k]) :: HostOf(kv[k]).value
  }

  /** The "host" entries read from the kept keys that start with `p`. */
  function ListedHosts(kv: map<string, string>, p: string): set<string> {
    set k | k in kv && HasPrefix(k, p) && ParseField(kv[k]).Some? && !IsTextValue(kv[k]) :: HostOf(kv[k]).value
  }

  /** A kept key with an empty value, on which the unmarshal loop fails. */
  predicate ListsEmptyValue(kv: map<string, string>, p: string) {
    exists k :: k in kv && HasPrefix(k, p) && kv[k] == ""
  }

  lemma ListedKeysHosts(kv: map<string, string>, p: string)
    ensures HostsOfKeys(kv, ListedKeys(kv, p)) == ListedHosts(kv, p)
    ensures ListsEmptyValue(kv, p) <==> exists k :: k in ListedKeys(kv, p) && kv[k] == ""
  {
  }

  /** One more kept key read: its host joins the hosts read so far. */
  lemma ReadStep(kv: map<string, string>, keys: set<string>, todo: set<string>, k: string, hosts: seq<string>)
    requires todo <= keys && keys <= kv.Keys && k in todo && Kept(kv, k) && kv[k] != ""
    requires HostSet(hosts) == HostsOfKeys(kv, keys - todo)
    ensures HostSet(hosts + [HostOf(kv[k]).value]) == HostsOfKeys(kv, keys - (todo - {k}))
  {
    HostSetAppend(hosts, HostOf(kv[k]).value);
    assert keys - (todo - {k}) == (keys - todo) + {k};
    HostsOfKeysAdd(kv, keys - todo, k);
  }

  lemma HostSetAppend(hosts: seq<string>, h: string)
    ensures HostSet(hosts + [h]) == HostSet(hosts) + {h}
  {
  }

  lemma HostsOfKeysAdd(kv: map<string, string>, keys: set<string>, k: string)
    requires keys <= kv.Keys && k in kv && ParseField(kv[k]).Some? && !IsTextValue(kv[k])
    ensures HostsOfKeys(kv, keys + {k}) == HostsOfKeys(kv, keys) + {HostOf(kv[k]).value}
  {
  }

  /**
   * The keys lookupKeys keeps below `path` + "/" are exactly the keys of `hosts`,
   * each holding its wrapped host. Keys it skips, such as a TXT record's, may sit
   * there as well.
   */
  ghost predicate HoldsHostKeys(kv: map<string, string>, path: string, hosts: set<string>) {
    (forall k :: k in kv && HasPrefix(k, path + "/") && Kept(kv, k) ==> exists h :: h in hosts && k == HostKey(path, h)) &&
    (forall h :: h in hosts ==> HostKey(path, h) in kv && kv[HostKey(path, h)] == FormatValue(h))
  }

  /** Every key added or changed since `kv0` holds a value lookupKeys keeps. */
  ghost predicate WritesHosts(kv0: map<string, string>, kv: map<string, string>) {
    forall k :: k in kv && !(k in kv0 && kv[k] == kv0[k]) ==> Kept(kv, k)
  }

  /** Writing a value lookupKeys skips at a key no host has leaves the host keys held. */
  lemma SkippedKeyKeepsHostKeys(kv: map<string, string>, path: string, hosts: set<string>, k: string, v: string)
    requires HoldsHostKeys(kv, path, hosts)
    requires ParseField(v).Some? && IsTextValue(v)
    requires forall h :: h in hosts ==> HostKey(path, h) != k
    ensures HoldsHostKeys(kv[k := v], path, hosts)
  {
    assert v != "";
  }

  /** A directory holding only host keys holds them in this sense too. */
  lemma HoldsHostsKeys(kv: map<string, string>, path: string, hosts: set<string>)
    requires HoldsHosts(kv, path, hosts)
    ensures HoldsHostKeys(kv, path, hosts)
  {
  }

  /** When every key below the directory is one lookupKeys keeps, holding the host keys is holding the hosts. */
  lemma HostKeysOnly(kv: map<string, string>, path: string, hosts: set<string>)
    requires HoldsHostKeys(kv, path, hosts)
    requires forall k :: k in kv && HasPrefix(k, path + "/") ==> Kept(kv, k)
    ensures HoldsHosts(kv, path, hosts)
  {
  }

  /** What a directory of host keys reads back as: its hosts, and no failure. */
  lemma ReadHeldHosts(kv: map<string, string>, path: string, hosts: set<string>)
    requires HoldsHostKeys(kv, path, hosts)
    requires forall h :: h in hosts ==> WellFormedHost(h)
    ensures !ListsEmptyValue(kv, path + "/")
    ensures ListedHosts(kv, path + "/") == hosts
  {
    forall k | k in kv && HasPrefix(k, path + "/") && Kept(kv, k)
      ensures kv[k] != "" && ParseField(kv[k]).Some? && !IsTextValue(kv[k]) && HostOf(kv[k]).value in hosts
    {
      var h :| h in hosts && k == HostKey(path, h);
      FormatValueRoundTrip(h);
    }
    forall h | h in hosts
      ensures h in ListedHosts(kv, path + "/")
    {
      HostKeyUnder(path, h);
      FormatValueRoundTrip(h);
    }
  }

  /**
   * lookupKeys matches the path as a plain string prefix, so the directory of a
   * label also lists the keys of every label that starts with it: the label "x1"
   * reads the hosts of "x10". Syncing "x1" to a host that "x10" already has then
   * puts nothing, and "x1" is left without the host. With the directory prefix
   * `path + "/"` the same read finds nothing and the host is put.
   */
  lemma LookupPrefixOverlap(p: string, h: string, kv: map<string, string>)
    requires PlainString(h)
    requires kv == map[HostKey(p + "/x10", h) := FormatValue(h)]
    ensures ListedHosts(kv, p + "/x1") == {h}
    ensures Added([h], [h], p + "/x1") == {}
    ensures HostKey(p + "/x1", h) !in kv
    ensures ListedHosts(kv, p + "/x1/") == {}
    ensures HostKey(p + "/x1", h) in Added([h], [], p + "/x1")
  {
    var k := HostKey(p + "/x10", h);
    assert HasPrefix(k, p + "/x1") && !HasPrefix(k, p + "/x1/") by {
      assert k[..|p| + 3] == p + "/x1";
      assert k[|p| + 3] == '0';
    }
    assert HostKey(p + "/x1", h) != k by {
      assert HostKey(p + "/x1", h)[|p| + 3] == '/';
      assert k[|p| + 3] == '0';
    }
    assert ListedHosts(kv, p + "/x1") == {h} by {
      FormatValueRoundTrip(h);
      assert ParseField(kv[k]).Some? && !IsTextValue(kv[k]) && HostOf(kv[k]).value == h;
      assert h in ListedHosts(kv, p + "/x1");
    }
    assert HostKey(p + "/x1", h) in Added([h], [], p + "/x1") by {
      assert h in [h] && h !in [];
    }
  }

  // ---------------------------------------------------------------------------
  // Facts about directories of labels

  /** A label that can name a directory: no "." and no "/". */
  predicate WellFormedLabel(l: string) {
    '.' !in l && '/' !in l
  }

  /** A directory whose kept keys are those of well-formed hosts. */
  ghost predicate HostDir(kv: map<string, string>, path: string) {
    exists hosts: set<string> :: HoldsHostKeys(kv, path, hosts) && WellFormedHosts(hosts)
  }

  /** Whether a directory holds its host keys depends only on the keys below it. */
  lemma HoldsHostKeysFrame(kv: map<string, string>, kv': map<string, string>, path: string, hosts: set<string>)
    requires HoldsHostKeys(kv, path, hosts)
    requires forall k :: HasPrefix(k, path + "/") ==> (k in kv <==> k in kv') && (k in kv ==> kv[k] == kv'[k])
    ensures HoldsHostKeys(kv', path, hosts)
  {
    forall h | h in hosts
      ensures HostKey(path, h) in kv' && kv'[HostKey(path, h)] == FormatValue(h)
    {
      HostKeyUnder(path, h);
    }
  }

  /**
   * The diff from the hosts a directory holds to new hosts leaves it holding the
   * new hosts' keys, and no key lookupKeys skips is touched unless a new host's
   * key is put over it.
   */
  lemma DiffHoldsNewHostKeys(before: map<string, string>, after: map<string, string>,
                             newHosts: seq<string>, oldHosts: seq<string>, path: string)
    requires HoldsHostKeys(before, path, HostSet(oldHosts))
    requires forall h :: h in newHosts ==> WellFormedHost(h)
    requires forall h :: h in oldHosts ==> WellFormedHost(h)
    requires after.Keys == (before.Keys - Removed(newHosts, oldHosts, path)) + Added(newHosts, oldHosts, path)
    requires forall k :: k in after && k !in Added(newHosts, oldHosts, path) ==> after[k] == before[k]
    requires forall k :: k in Added(newHosts, oldHosts, path) ==> PutFor(newHosts, oldHosts, path, k, after[k])
    ensures HoldsHostKeys(after, path, HostSet(newHosts))
    ensures forall k :: k in before && !Kept(before, k) && k !in Added(newHosts, oldHosts, path) ==>
              k in after && after[k] == before[k]
  {
    var rem, add := Removed(newHosts, oldHosts, path), Added(newHosts, oldHosts, path);
    forall h | h in newHosts
      ensures HostKey(path, h) in after && after[HostKey(path, h)] == FormatValue(h)
    {
      var k := HostKey(path, h);
      if h in oldHosts {
        if k in rem {
          var r :| r in oldHosts && r !in newHosts && HostKey(path, r) == k;
          HostKeyInjective(path, r, h);
        }
        if k in add {
          var n :| n in newHosts && n !in oldHosts && HostKey(path, n) == k;
          HostKeyInjective(path, n, h);
        }
      } else {
        assert k in add;
        var n :| n in newHosts && n !in oldHosts && HostKey(path, n) == k && after[k] == FormatValue(n);
        HostKeyInjective(path, n, h);
      }
    }
    forall k | k in after && HasPrefix(k, path + "/") && Kept(after, k)
      ensures exists h :: h in HostSet(newHosts) && k == HostKey(path, h)
    {
      if k !in add {
        assert k in before && k !in rem && Kept(before, k);
        var h :| h in HostSet(oldHosts) && k == HostKey(path, h);
        assert h in newHosts;
      }
    }
    DiffSkipsUnkept(before, newHosts, oldHosts, path);
  }

  /** The diff deletes only keys that hold an old host, which lookupKeys keeps. */
  lemma DiffSkipsUnkept(before: map<string, string>, newHosts: seq<string>, oldHosts: seq<string>, path: string)
    requires HoldsHostKeys(before, path, HostSet(oldHosts))
    requires forall h :: h in oldHosts ==> WellFormedHost(h)
    ensures forall k :: k in before && !Kept(before, k) ==> k !in Removed(newHosts, oldHosts, path)
  {
    forall k | k in before && !Kept(before, k)
      ensures k !in Removed(newHosts, oldHosts, path)
    {
      if k in Removed(newHosts, oldHosts, path) {
        var r :| r in oldHosts && r !in newHosts && HostKey(path, r) == k;
        FormatValueRoundTrip(r);
      }
    }
  }

  lemma PrefixTransitive(k: string, a: string, b: string)
    requires HasPrefix(k, a) && HasPrefix(a, b)
    ensures HasPrefix(k, b)
  {
    assert k[..|b|] == k[..|a|][..|b|];
  }

  /** Two prefixes of one string: the shorter is a prefix of the longer. */
  lemma PrefixOrder(k: string, a: string, b: string)
    requires HasPrefix(k, a) && HasPrefix(k, b) && |b| <= |a|
    ensures HasPrefix(a, b)
  {
    assert a[..|b|] == k[..|a|][..|b|];
  }

  /** The path of a sibling label is below `base/l/` only if that label has a "/". */
  lemma SiblingNotBelow(base: string, l: string, l': string)
    ensures HasPrefix(base + "/" + l', base + "/" + l + "/") ==> '/' in l'
  {
    if HasPrefix(base + "/" + l', base + "/" + l + "/") {
      var i := |base| + 1 + |l|;
      assert (base + "/" + l')[i] == (base + "/" + l + "/")[i];
      assert (base + "/" + l')[i] == l'[|l|];
    }
  }

  /** Host keys below `p/` are below the prefix `p`. */
  lemma BelowDirIsBelow(k: string, p: string)
    requires HasPrefix(k, p + "/")
    ensures HasPrefix(k, p)
  {
    assert k[..|p|] == (p + "/")[..|p|];
  }

  // ---------------------------------------------------------------------------
  // The backend

  class Backend {
    const domain: string
    const prefix: string
    const store: Store

    constructor (domain: string, prefix: string, store: Store)
      ensures this.domain == domain && this.prefix == prefix && this.store == store
    {
      this.domain := domain;
      this.prefix := prefix;
      this.store := store;
    }

    // -------------------------------------------------------------------------
    // Set: slug allocation

    /** checkSlugName: the slug's frozen key exists. */
    predicate SlugFrozen(slug: string)
      reads store
    {
      FrozenKey(prefix, slug) in store.kv
    }

    /** checkPathExist: the key exists. */
    predicate PathExists(path: string)
      reads store
    {
      path in store.kv
    }

    /** The name a slug gives. */
    function Candidate(slug: string): string {
      slug + "." + domain
    }

    /** A slug Set can adopt: not frozen, and its name's path is not a key. */
    predicate SlugFree(slug: string)
      reads store
    {
      !SlugFrozen(slug) && !PathExists(GetPath(prefix, Candidate(slug)))
    }

    /** The path Set is left with after `n` draws none of which it adopted: the last unfrozen one's, or "". */
    function LastTriedPath(draw: nat -> string, n: nat): string
      reads store
    {
      if n == 0 then ""
      else if SlugFrozen(draw(n - 1)) then LastTriedPath(draw, n - 1)
      else GetPath(prefix, Candidate(draw(n - 1)))
    }

    /**
     * The slug loop of Set: up to MaxSlugHashTimes draws, skipping frozen slugs,
     * adopting the first slug whose path does not exist. When none is adopted,
     * the requested name stays and Set goes on with the path last tried.
     * `draw(i)` is the i-th slug generateSlug returns.
     */
    method AllocateSlug(draw: nat -> string, requested: string) returns (fqdn: string, path: string, slug: string)
      ensures forall i :: (0 <= i < MaxSlugHashTimes && SlugFree(draw(i)) &&
                (forall j :: 0 <= j < i ==> !SlugFree(draw(j)))) ==>
                fqdn == Candidate(draw(i)) && path == GetPath(prefix, fqdn) && slug == draw(i)
      ensures (forall i :: 0 <= i < MaxSlugHashTimes ==> !SlugFree(draw(i))) ==>
                fqdn == requested && path == LastTriedPath(draw, MaxSlugHashTimes) && slug == draw(MaxSlugHashTimes - 1)
    {
      fqdn, path, slug := requested, "", "";
      var found := false;
      var i := 0;
      while i < MaxSlugHashTimes && !found
        invariant 0 <= i <= MaxSlugHashTimes
        invariant !found ==> forall j :: 0 <= j < i ==> !SlugFree(draw(j))
        invariant !found ==> fqdn == requested && path == LastTriedPath(draw, i) && (i > 0 ==> slug == draw(i - 1))
        invariant found ==> 0 < i && SlugFree(draw(i - 1)) && (forall j :: 0 <= j < i - 1 ==> !SlugFree(draw(j))) &&
                            fqdn == Candidate(draw(i - 1)) && path == GetPath(prefix, fqdn) && slug == draw(i - 1)
      {
        slug := draw(i);
        if !SlugFrozen(slug) {
          var name := Candidate(slug);
          path := GetPath(prefix, name);
          if !PathExists(path) {
            fqdn := name;
            found := true;
          }
        }
        i := i + 1;
      }
    }

    // -------------------------------------------------------------------------
    // TXT records

    /** The name whose token guards a TXT name: its slug followed by the domain. */
    function TextBase(fqdn: string): string {
      match FindSlugWithZone(fqdn, domain)
      case Ok(slug) => Candidate(slug)
      case Err(_) => ""
    }

    /** GetText: the "text" entry of the value stored at the name's path. */
    function GetText(fqdn: string): Result<string, Error>
      reads store
    {
      if !TextFqdnValid(fqdn, domain) then Err(NotValidFqdn)
      else
        var path := GetPath(prefix, fqdn);
        if path !in store.kv then Err(EmptyRecord)
        else
          match TextOf(store.kv[path])
          case None => Err(Unmarshal)
          case Some(t) => Ok(t)
    }

    /**
     * SetText: check the name, require the token of its base name (setToken with
     * exist), put {"text":<text>} at the name's path, and read it back.
     */
    method SetText(fqdn: string, text: string) returns (r: Result<string, Error>)
      modifies store
      ensures !TextFqdnValid(fqdn, domain) ==> r == Err(NotValidFqdn) && store.kv == old(store.kv)
      ensures TextFqdnValid(fqdn, domain) && GetTokenPath(TextBase(fqdn)) !in old(store.kv) ==>
                r == Err(EmptyRecord) && store.kv == old(store.kv)
      ensures TextFqdnValid(fqdn, domain) && GetTokenPath(TextBase(fqdn)) in old(store.kv) ==>
                store.kv == old(store.kv)[GetPath(prefix, fqdn) := FormatTextValue(text)] &&
                (PlainString(text) ==> r == Ok(text))
    {
      if !TextFqdnValid(fqdn, domain) {
        return Err(NotValidFqdn);
      }
      r := PutText(fqdn, text);
    }

    /**
     * UpdateText: as SetText, but the TXT record has to be readable first; any
     * failure to read it is reported as EmptyRecord.
     */
    method UpdateText(fqdn: string, text: string) returns (r: Result<string, Error>)
      modifies store
      ensures !TextFqdnValid(fqdn, domain) ==> r == Err(NotValidFqdn) && store.kv == old(store.kv)
      ensures TextFqdnValid(fqdn, domain) && old(GetText(fqdn)).Err? ==> r == Err(EmptyRecord) && store.kv == old(store.kv)
      ensures TextFqdnValid(fqdn, domain) && old(GetText(fqdn)).Ok? && GetTokenPath(TextBase(fqdn)) !in old(store.kv) ==>
                r == Err(EmptyRecord) && store.kv == old(store.kv)
      ensures TextFqdnValid(fqdn, domain) && old(GetText(fqdn)).Ok? && GetTokenPath(TextBase(fqdn)) in old(store.kv) ==>
                store.kv == old(store.kv)[GetPath(prefix, fqdn) := FormatTextValue(text)] &&
                (PlainString(text) ==> r == Ok(text))
    {
      if !TextFqdnValid(fqdn, domain) {
        return Err(NotValidFqdn);
      }
      if GetText(fqdn).Err? {
        return Err(EmptyRecord);
      }
      r := PutText(fqdn, text);
    }

    /** The part SetText and UpdateText share once the name is valid. */
    method PutText(fqdn: string, text: string) returns (r: Result<string, Error>)
      requires TextFqdnValid(fqdn, domain)
      modifies store
      ensures GetTokenPath(TextBase(fqdn)) !in old(store.kv) ==> r == Err(EmptyRecord) && store.kv == old(store.kv)
      ensures GetTokenPath(TextBase(fqdn)) in old(store.kv) ==>
                store.kv == old(store.kv)[GetPath(prefix, fqdn) := FormatTextValue(text)] &&
                (PlainString(text) ==> r == Ok(text))
    {
      var path := GetPath(prefix, fqdn);
      var base := TextBase(fqdn);
      if GetTokenPath(base) !in store.kv {
        return Err(EmptyRecord);
      }
      store.Put(path, FormatTextValue(text));
      if PlainString(text) {
        FormatValueRoundTrip(text);
      }
      r := GetText(fqdn);
    }

    // -------------------------------------------------------------------------
    // setSubRecords

    /** The directory of the subdomain `<l>.<fqdn>`. */
    function SubPath(fqdn: string, l: string): string {
      GetPath(prefix, l + "." + fqdn)
    }

    /**
     * The TXT record of `<c>.<l>.<fqdn>`, such as an ACME challenge below the
     * subdomain label `l`, is stored below the directory of `l`. Its value is one
     * lookupKeys skips, so the label's directory holds its host keys as before.
     */
    lemma TextBelowLabel(fqdn: string, l: string, c: string, text: string,
                         kv: map<string, string>, hosts: set<string>)
      requires '.' !in l && '.' !in c && PlainString(text)
      requires HoldsHostKeys(kv, SubPath(fqdn, l), hosts)
      requires forall h :: h in hosts ==> HostKey(SubPath(fqdn, l), h) != SubPath(fqdn, l) + "/" + c
      ensures GetPath(prefix, c + "." + l + "." + fqdn) == SubPath(fqdn, l) + "/" + c
      ensures HoldsHostKeys(kv[GetPath(prefix, c + "." + l + "." + fqdn) := FormatTextValue(text)], SubPath(fqdn, l), hosts)
    {
      assert GetPath(prefix, c + "." + l + "." + fqdn) == SubPath(fqdn, l) + "/" + c by {
        assert c + "." + l + "." + fqdn == c + "." + (l + "." + fqdn);
        GetPathOfSubdomain(prefix, c, l + "." + fqdn);
        GetPathOfSubdomain(prefix, l, fqdn);
      }
      FormatValueRoundTrip(text);
      SkippedKeyKeepsHostKeys(kv, SubPath(fqdn, l), hosts, SubPath(fqdn, l) + "/" + c, FormatTextValue(text));
    }

    /**
     * Reading the hosts below a prefix: the kept keys' "host" entries, in some
     * order; an empty value fails to decode.
     */
    method ReadHosts(p: string) returns (r: Result<seq<string>, Error>)
      ensures r.Err? <==> ListsEmptyValue(store.kv, p)
      ensures r.Ok? ==> HostSet(r.value) == ListedHosts(store.kv, p)
    {
      var kv := store.kv;
      var keys := ListedKeys(kv, p);
      var hosts: seq<string> := [];
      var todo := keys;
      while todo != {}
        invariant todo <= keys
        invariant forall k :: k in keys - todo ==> kv[k] != ""
        invariant HostSet(hosts) == HostsOfKeys(kv, keys - todo)
        decreases todo
      {
        var k :| k in todo;
        if kv[k] == "" {
          return Err(Unmarshal);
        }
        var h := HostOf(kv[k]).value;
        ReadStep(kv, keys, todo, k, hosts);
        hosts := hosts + [h];
        todo := todo - {k};
      }
      ListedKeysHosts(store.kv, p);
      r := Ok(hosts);
    }

    /** What a sync of the requested labels needs to leave each one holding exactly its hosts. */
    ghost predicate ReadyToSync(fqdn: string, sub: map<string, seq<string>>, kv: map<string, string>) {
      forall l :: l in sub ==>
        WellFormedLabel(l) && (forall h :: h in sub[l] ==> WellFormedHost(h)) && HostDir(kv, SubPath(fqdn, l))
    }

    /**
     * The first loop of setSubRecords: every label of `origins` that is no longer
     * requested has its whole prefix deleted.
     */
    method DeleteDroppedLabels(fqdn: string, sub: map<string, seq<string>>, origins: set<string>)
      modifies store
      ensures forall k :: k in store.kv ==> k in old(store.kv) && store.kv[k] == old(store.kv)[k]
      ensures forall k :: k in old(store.kv) && (forall l :: l in origins && l !in sub ==> !HasPrefix(k, SubPath(fqdn, l))) ==>
                k in store.kv
      ensures forall l, k :: l in origins && l !in sub && k in store.kv ==> !HasPrefix(k, SubPath(fqdn, l))
    {
      ghost var kv0 := store.kv;
      var todo := origins;
      while todo != {}
        invariant todo <= origins
        invariant forall k :: k in store.kv ==> k in kv0 && store.kv[k] == kv0[k]
        invariant forall k :: k in kv0 && (forall l :: l in origins - todo && l !in sub ==> !HasPrefix(k, SubPath(fqdn, l))) ==>
                    k in store.kv
        invariant forall l, k :: l in origins - todo && l !in sub && k in store.kv ==> !HasPrefix(k, SubPath(fqdn, l))
        decreases todo
      {
        var l :| l in todo;
        if l !in sub {
          store.DeletePrefix(SubPath(fqdn, l));
        }
        todo := todo - {l};
      }
    }

    /**
     * The second loop of setSubRecords: each requested label's hosts are read
     * from its directory and synced to the requested hosts.
     */
    method SyncLabels(fqdn: string, sub: map<string, seq<string>>) returns (r: Result<(), Error>)
      modifies store
      ensures forall k :: k in store.kv && !(k in old(store.kv) && store.kv[k] == old(store.kv)[k]) ==>
                exists l :: l in sub && HasPrefix(k, SubPath(fqdn, l) + "/")
      ensures forall k :: k in old(store.kv) && (forall l :: l in sub ==> !HasPrefix(k, SubPath(fqdn, l) + "/")) ==>
                k in store.kv && store.kv[k] == old(store.kv)[k]
      ensures ReadyToSync(fqdn, sub, old(store.kv)) ==>
                r.Ok? && (forall l :: l in sub ==> HoldsHostKeys(store.kv, SubPath(fqdn, l), HostSet(sub[l]))) &&
                WritesHosts(old(store.kv), store.kv) && SkippedKept(fqdn, sub, old(store.kv), store.kv)
      ensures ReadyToSync(fqdn, sub, old(store.kv)) && OnlyKeptBelow(fqdn, sub, old(store.kv)) ==>
                forall l :: l in sub ==> HoldsHosts(store.kv, SubPath(fqdn, l), HostSet(sub[l]))
    {
      ghost var kv0 := store.kv;
      var todo := sub.Keys;
      while todo != {}
        invariant todo <= sub.Keys
        invariant Synced(fqdn, sub, kv0, store.kv, sub.Keys - todo)
        decreases todo
      {
        var l :| l in todo;
        var path := SubPath(fqdn, l);
        var read := ReadHosts(path + "/");
        ghost var held: set<string> := {};
        if ReadyToSync(fqdn, sub, kv0) {
          held :| HoldsHostKeys(store.kv, path, held) && WellFormedHosts(held);
          ReadHeldHosts(store.kv, path, held);
        }
        if read.Err? {
          return Err(read.error);
        }
        ghost var kv1 := store.kv;
        store.SyncRecords(sub[l], read.value, path);
        if ReadyToSync(fqdn, sub, kv0) {
          assert HostSet(read.value) == held;
          SyncedLabel(fqdn, sub, l, read.value, kv1, store.kv);
        }
        SyncStep(fqdn, sub, kv0, kv1, store.kv, sub.Keys - todo, l);
        assert sub.Keys - (todo - {l}) == (sub.Keys - todo) + {l};
        todo := todo - {l};
      }
      assert sub.Keys - todo == sub.Keys;
      if ReadyToSync(fqdn, sub, kv0) && OnlyKeptBelow(fqdn, sub, kv0) {
        OnlyHosts(fqdn, sub, kv0, store.kv);
      }
      r := Ok(());
    }

    /** With only kept keys below the labels at the start, holding the host keys is holding the hosts. */
    lemma OnlyHosts(fqdn: string, sub: map<string, seq<string>>, kv0: map<string, string>, kv: map<string, string>)
      requires OnlyKeptBelow(fqdn, sub, kv0) && WritesHosts(kv0, kv)
      requires forall l :: l in sub ==> HoldsHostKeys(kv, SubPath(fqdn, l), HostSet(sub[l]))
      ensures forall l :: l in sub ==> HoldsHosts(kv, SubPath(fqdn, l), HostSet(sub[l]))
    {
      forall l | l in sub
        ensures HoldsHosts(kv, SubPath(fqdn, l), HostSet(sub[l]))
      {
        forall k | k in kv && HasPrefix(k, SubPath(fqdn, l) + "/")
          ensures Kept(kv, k)
        {
          if k in kv0 && kv[k] == kv0[k] {
            assert Kept(kv0, k);
          }
        }
        HostKeysOnly(kv, SubPath(fqdn, l), HostSet(sub[l]));
      }
    }

    /** The invariant of SyncLabels once the labels of `done` are synced. */
    ghost predicate Synced(fqdn: string, sub: map<string, seq<string>>, kv0: map<string, string>,
                           kv: map<string, string>, done: set<string>) {
      done <= sub.Keys && ChangedOnlyBelow(fqdn, kv0, kv, done) && KeptOutside(fqdn, kv0, kv, done) &&
      (ReadyToSync(fqdn, sub, kv0) ==>
         DirsSynced(fqdn, sub, kv, done) && WritesHosts(kv0, kv) && SkippedKept(fqdn, sub, kv0, kv))
    }

    /** The key of a requested host below its label's directory. */
    ghost predicate RequestedKey(fqdn: string, sub: map<string, seq<string>>, k: string) {
      exists l, h :: l in sub && h in sub[l] && k == HostKey(SubPath(fqdn, l), h)
    }

    /** Every key of `kv0` that lookupKeys skips is as it was, unless a requested host's key was put over it. */
    ghost predicate SkippedKept(fqdn: string, sub: map<string, seq<string>>, kv0: map<string, string>, kv: map<string, string>) {
      forall k :: k in kv0 && !Kept(kv0, k) && !RequestedKey(fqdn, sub, k) ==> k in kv && kv[k] == kv0[k]
    }

    /** `k` is below none of the prefixes of the labels of `origins` that are no longer requested. */
    ghost predicate OutsideDropped(fqdn: string, sub: map<string, seq<string>>, origins: set<string>, k: string) {
      forall l :: l in origins && l !in sub ==> !HasPrefix(k, SubPath(fqdn, l))
    }

    /** Every key below a requested label's directory is one lookupKeys keeps. */
    ghost predicate OnlyKeptBelow(fqdn: string, sub: map<string, seq<string>>, kv: map<string, string>) {
      forall l, k :: l in sub && k in kv && HasPrefix(k, SubPath(fqdn, l) + "/") ==> Kept(kv, k)
    }

    /** Every key added or changed since `kv0` is below the directory of a label of `done`. */
    ghost predicate ChangedOnlyBelow(fqdn: string, kv0: map<string, string>, kv: map<string, string>, done: set<string>) {
      forall k :: k in kv && !(k in kv0 && kv[k] == kv0[k]) ==>
        exists l :: l in done && HasPrefix(k, SubPath(fqdn, l) + "/")
    }

    /** Every key of `kv0` below none of the directories of `done` is as it was. */
    ghost predicate KeptOutside(fqdn: string, kv0: map<string, string>, kv: map<string, string>, done: set<string>) {
      forall k :: k in kv0 && (forall l :: l in done ==> !HasPrefix(k, SubPath(fqdn, l) + "/")) ==>
        k in kv && kv[k] == kv0[k]
    }

    /** The labels of `done` hold their hosts' keys, and the others are still directories of host keys. */
    ghost predicate DirsSynced(fqdn: string, sub: map<string, seq<string>>, kv: map<string, string>, done: set<string>) {
      done <= sub.Keys &&
      (forall l :: l in sub.Keys - done ==> HostDir(kv, SubPath(fqdn, l))) &&
      (forall l :: l in done ==> HoldsHostKeys(kv, SubPath(fqdn, l), HostSet(sub[l])))
    }

    /** Syncing one more label keeps the invariant of SyncLabels. */
    lemma SyncStep(fqdn: string, sub: map<string, seq<string>>, kv0: map<string, string>,
                   kv1: map<string, string>, kv2: map<string, string>, done: set<string>, l: string)
      requires Synced(fqdn, sub, kv0, kv1, done)
      requires l in sub && l !in done
      requires SameOutside(kv1, kv2, SubPath(fqdn, l) + "/")
      requires ReadyToSync(fqdn, sub, kv0) ==>
                 HoldsHostKeys(kv2, SubPath(fqdn, l), HostSet(sub[l])) && WritesHosts(kv1, kv2) &&
                 SkippedKept(fqdn, sub, kv1, kv2)
      ensures Synced(fqdn, sub, kv0, kv2, done + {l})
    {
      ChangedStep(fqdn, kv0, kv1, kv2, done, l);
      KeptStep(fqdn, kv0, kv1, kv2, done, l);
      if ReadyToSync(fqdn, sub, kv0) {
        DirsStep(fqdn, sub, kv1, kv2, done, l);
        WritesStep(fqdn, sub, kv0, kv1, kv2);
      }
    }

    /** Host writes and untouched skipped keys compose over two syncs. */
    lemma WritesStep(fqdn: string, sub: map<string, seq<string>>,
                     kv0: map<string, string>, kv1: map<string, string>, kv2: map<string, string>)
      requires WritesHosts(kv0, kv1) && SkippedKept(fqdn, sub, kv0, kv1)
      requires WritesHosts(kv1, kv2) && SkippedKept(fqdn, sub, kv1, kv2)
      ensures WritesHosts(kv0, kv2) && SkippedKept(fqdn, sub, kv0, kv2)
    {
      forall k | k in kv2 && !(k in kv0 && kv2[k] == kv0[k])
        ensures Kept(kv2, k)
      {
        if k in kv1 && kv2[k] == kv1[k] {
          assert Kept(kv1, k);
        }
      }
      forall k | k in kv0 && !Kept(kv0, k) && !RequestedKey(fqdn, sub, k)
        ensures k in kv2 && kv2[k] == kv0[k]
      {
        assert k in kv1 && kv1[k] == kv0[k] && !Kept(kv1, k);
      }
    }

    /**
     * Syncing one label whose directory held the hosts read: its directory
     * holds the requested hosts' keys, every key written holds a host, and a
     * key lookupKeys skips is touched only by a requested host's key.
     */
    lemma SyncedLabel(fqdn: string, sub: map<string, seq<string>>, l: string, read: seq<string>,
                      kv1: map<string, string>, kv2: map<string, string>)
      requires l in sub && (forall h :: h in sub[l] ==> WellFormedHost(h)) && (forall h :: h in read ==> WellFormedHost(h))
      requires HoldsHostKeys(kv1, SubPath(fqdn, l), HostSet(read))
      requires kv2.Keys == (kv1.Keys - Removed(sub[l], read, SubPath(fqdn, l))) + Added(sub[l], read, SubPath(fqdn, l))
      requires forall k :: k in kv2 && k !in Added(sub[l], read, SubPath(fqdn, l)) ==> kv2[k] == kv1[k]
      requires forall k :: k in Added(sub[l], read, SubPath(fqdn, l)) ==> PutFor(sub[l], read, SubPath(fqdn, l), k, kv2[k])
      ensures HoldsHostKeys(kv2, SubPath(fqdn, l), HostSet(sub[l]))
      ensures WritesHosts(kv1, kv2) && SkippedKept(fqdn, sub, kv1, kv2)
    {
      var path := SubPath(fqdn, l);
      var add := Added(sub[l], read, path);
      DiffHoldsNewHostKeys(kv1, kv2, sub[l], read, path);
      forall k | k in add
        ensures RequestedKey(fqdn, sub, k) && Kept(kv2, k)
      {
        var h :| h in sub[l] && h !in read && HostKey(path, h) == k && kv2[k] == FormatValue(h);
        FormatValueRoundTrip(h);
      }
    }

    lemma ChangedStep(fqdn: string, kv0: map<string, string>, kv1: map<string, string>, kv2: map<string, string>,
                      done: set<string>, l: string)
      requires ChangedOnlyBelow(fqdn, kv0, kv1, done)
      requires SameOutside(kv1, kv2, SubPath(fqdn, l) + "/")
      ensures ChangedOnlyBelow(fqdn, kv0, kv2, done + {l})
    {
      forall k | k in kv2 && !(k in kv0 && kv2[k] == kv0[k])
        ensures exists m :: m in done + {l} && HasPrefix(k, SubPath(fqdn, m) + "/")
      {
        if !HasPrefix(k, SubPath(fqdn, l) + "/") {
          assert k in kv1 && kv1[k] == kv2[k];
          var m :| m in done && HasPrefix(k, SubPath(fqdn, m) + "/");
          assert m in done + {l};
        } else {
          assert l in done + {l};
        }
      }
    }

    lemma KeptStep(fqdn: string, kv0: map<string, string>, kv1: map<string, string>, kv2: map<string, string>,
                   done: set<string>, l: string)
      requires KeptOutside(fqdn, kv0, kv1, done)
      requires SameOutside(kv1, kv2, SubPath(fqdn, l) + "/")
      ensures KeptOutside(fqdn, kv0, kv2, done + {l})
    {
      forall k | k in kv0 && (forall m :: m in done + {l} ==> !HasPrefix(k, SubPath(fqdn, m) + "/"))
        ensures k in kv2 && kv2[k] == kv0[k]
      {
        assert l in done + {l};
        assert forall m :: m in done ==> m in done + {l};
      }
    }

    lemma DirsStep(fqdn: string, sub: map<string, seq<string>>, kv1: map<string, string>, kv2: map<string, string>,
                   done: set<string>, l: string)
      requires forall m :: m in sub ==> WellFormedLabel(m)
      requires DirsSynced(fqdn, sub, kv1, done)
      requires l in sub && l !in done
      requires SameOutside(kv1, kv2, SubPath(fqdn, l) + "/")
      requires HoldsHostKeys(kv2, SubPath(fqdn, l), HostSet(sub[l]))
      ensures DirsSynced(fqdn, sub, kv2, done + {l})
    {
      forall m | m in sub.Keys - (done + {l})
        ensures HostDir(kv2, SubPath(fqdn, m))
      {
        var hosts :| HoldsHostKeys(kv1, SubPath(fqdn, m), hosts) && WellFormedHosts(hosts);
        DirectoryKept(fqdn, l, m, kv1, kv2, hosts);
      }
      forall m | m in done
        ensures HoldsHostKeys(kv2, SubPath(fqdn, m), HostSet(sub[m]))
      {
        DirectoryKept(fqdn, l, m, kv1, kv2, HostSet(sub[m]));
      }
    }

    /** Syncing the directory of label `l` keeps the directory of another label `m` as it was. */
    lemma DirectoryKept(fqdn: string, l: string, m: string, kv: map<string, string>, kv': map<string, string>, hosts: set<string>)
      requires WellFormedLabel(l) && WellFormedLabel(m) && l != m
      requires SameOutside(kv, kv', SubPath(fqdn, l) + "/")
      requires HoldsHostKeys(kv, SubPath(fqdn, m), hosts)
      ensures HoldsHostKeys(kv', SubPath(fqdn, m), hosts)
    {
      GetPathOfSubdomain(prefix, l, fqdn);
      GetPathOfSubdomain(prefix, m, fqdn);
      forall k | HasPrefix(k, SubPath(fqdn, m) + "/")
        ensures (k in kv <==> k in kv') && (k in kv ==> kv[k] == kv'[k])
      {
        if HasPrefix(k, SubPath(fqdn, l) + "/") {
          SameDirectory(GetPath(prefix, fqdn), m, l, k);
        }
      }
      HoldsHostKeysFrame(kv, kv', SubPath(fqdn, m), hosts);
    }

    /** After the dropped labels' prefixes are deleted, each requested label's directory is still a directory of host keys. */
    lemma DirectoriesSurviveDeletes(fqdn: string, sub: map<string, seq<string>>, origins: set<string>,
                                    kv: map<string, string>, kv': map<string, string>)
      requires forall m :: m in origins || m in sub ==> WellFormedLabel(m)
      requires forall k :: k in kv' ==> k in kv && kv'[k] == kv[k]
      requires forall k :: k in kv && (forall m :: m in origins && m !in sub ==> !HasPrefix(k, SubPath(fqdn, m))) ==> k in kv'
      requires forall m, k :: m in origins && m !in sub && k in kv' ==> !HasPrefix(k, SubPath(fqdn, m))
      requires forall l :: l in sub ==> HostDir(kv, SubPath(fqdn, l))
      ensures forall l :: l in sub ==> HostDir(kv', SubPath(fqdn, l))
    {
      var base := GetPath(prefix, fqdn);
      forall l | l in sub
        ensures HostDir(kv', SubPath(fqdn, l))
      {
        GetPathOfSubdomain(prefix, l, fqdn);
        var dir := SubPath(fqdn, l);
        if m :| m in origins && m !in sub && HasPrefix(dir + "/", SubPath(fqdn, m)) {
          // The whole directory went with the prefix of `m`.
          forall k | HasPrefix(k, dir + "/")
            ensures HasPrefix(k, SubPath(fqdn, m))
          {
            PrefixTransitive(k, dir + "/", SubPath(fqdn, m));
          }
          assert HoldsHostKeys(kv', dir, {});
        } else {
          // No dropped prefix reaches into the directory.
          forall k | HasPrefix(k, dir + "/")
            ensures (k in kv <==> k in kv') && (k in kv ==> kv[k] == kv'[k])
          {
            forall m | m in origins && m !in sub
              ensures !HasPrefix(k, SubPath(fqdn, m))
            {
              GetPathOfSubdomain(prefix, m, fqdn);
              if HasPrefix(k, SubPath(fqdn, m)) {
                if |SubPath(fqdn, m)| <= |dir + "/"| {
                  PrefixOrder(k, dir + "/", SubPath(fqdn, m));
                } else {
                  PrefixOrder(k, SubPath(fqdn, m), dir + "/");
                  SiblingNotBelow(base, l, m);
                }
              }
            }
          }
          var hosts :| HoldsHostKeys(kv, dir, hosts) && WellFormedHosts(hosts);
          HoldsHostKeysFrame(kv, kv', dir, hosts);
        }
      }
    }

    /**
     * setSubRecords: delete the prefix of every label of `origins` that is no
     * longer requested, then sync every requested label's directory to its hosts.
     * Keys outside the labels' prefixes are never touched, and with well-formed
     * labels no dropped label keeps a key. When the hosts are well formed too and
     * the host-valued keys of each requested directory are those of its hosts,
     * every requested label ends up holding exactly its hosts' keys, and keys
     * lookupKeys skips (a TXT record's) stay as they were unless a dropped
     * label's prefix takes them or a requested host's key is put over them.
     */
    method SetSubRecords(fqdn: string, sub: map<string, seq<string>>, origins: set<string>) returns (r: Result<(), Error>)
      modifies store
      ensures forall k :: k in old(store.kv) && (forall l :: (l in origins || l in sub) ==> !HasPrefix(k, SubPath(fqdn, l))) ==>
                k in store.kv && store.kv[k] == old(store.kv)[k]
      ensures forall k :: k in store.kv && !(k in old(store.kv) && store.kv[k] == old(store.kv)[k]) ==>
                exists l :: l in sub && HasPrefix(k, SubPath(fqdn, l) + "/")
      ensures (forall l :: l in origins || l in sub ==> WellFormedLabel(l)) ==>
                forall l, k :: l in origins && l !in sub && k in store.kv ==> !HasPrefix(k, SubPath(fqdn, l) + "/")
      ensures (forall l :: l in origins ==> WellFormedLabel(l)) && ReadyToSync(fqdn, sub, old(store.kv)) ==>
                r.Ok? &&
                (forall l :: l in sub ==> HoldsHostKeys(store.kv, SubPath(fqdn, l), HostSet(sub[l]))) &&
                WritesHosts(old(store.kv), store.kv) &&
                (forall k :: k in old(store.kv) && !Kept(old(store.kv), k) && !RequestedKey(fqdn, sub, k) &&
                             OutsideDropped(fqdn, sub, origins, k) ==>
                   k in store.kv && store.kv[k] == old(store.kv)[k])
      ensures (forall l :: l in origins ==> WellFormedLabel(l)) && ReadyToSync(fqdn, sub, old(store.kv)) &&
              OnlyKeptBelow(fqdn, sub, old(store.kv)) ==>
                forall l :: l in sub ==> HoldsHosts(store.kv, SubPath(fqdn, l), HostSet(sub[l]))
    {
      ghost var kv0 := store.kv;
      DeleteDroppedLabels(fqdn, sub, origins);
      ghost var kv1 := store.kv;
      if (forall l :: l in origins ==> WellFormedLabel(l)) && ReadyToSync(fqdn, sub, kv0) {
        DirectoriesSurviveDeletes(fqdn, sub, origins, kv0, kv1);
        assert ReadyToSync(fqdn, sub, kv1);
        if OnlyKeptBelow(fqdn, sub, kv0) {
          assert OnlyKeptBelow(fqdn, sub, kv1) by {
            forall l, k | l in sub && k in kv1 && HasPrefix(k, SubPath(fqdn, l) + "/")
              ensures Kept(kv1, k)
            {
              assert Kept(kv0, k);
            }
          }
        }
      }
      r := SyncLabels(fqdn, sub);
      UntouchedKeys(fqdn, sub, origins, kv0, kv1, store.kv);
      ChangedSinceDeletes(fqdn, sub, kv0, kv1, store.kv);
      if forall l :: l in origins || l in sub ==> WellFormedLabel(l) {
        DroppedStayGone(fqdn, sub, origins, kv1, store.kv);
      }
      if (forall l :: l in origins ==> WellFormedLabel(l)) && ReadyToSync(fqdn, sub, kv0) {
        DeletesThenSync(fqdn, sub, origins, kv0, kv1, store.kv);
      }
    }

    /** What the deletes leave of the keys lookupKeys skips, the syncs leave too. */
    lemma DeletesThenSync(fqdn: string, sub: map<string, seq<string>>, origins: set<string>,
                          kv0: map<string, string>, kv1: map<string, string>, kv2: map<string, string>)
      requires forall k :: k in kv1 ==> k in kv0 && kv1[k] == kv0[k]
      requires forall k :: k in kv0 && (forall l :: l in origins && l !in sub ==> !HasPrefix(k, SubPath(fqdn, l))) ==> k in kv1
      requires WritesHosts(kv1, kv2) && SkippedKept(fqdn, sub, kv1, kv2)
      ensures WritesHosts(kv0, kv2)
      ensures forall k :: k in kv0 && !Kept(kv0, k) && !RequestedKey(fqdn, sub, k) &&
                          OutsideDropped(fqdn, sub, origins, k) ==>
                k in kv2 && kv2[k] == kv0[k]
    {
      forall k | k in kv2 && !(k in kv0 && kv2[k] == kv0[k])
        ensures Kept(kv2, k)
      {
      }
      forall k | k in kv0 && !Kept(kv0, k) && !RequestedKey(fqdn, sub, k) && OutsideDropped(fqdn, sub, origins, k)
        ensures k in kv2 && kv2[k] == kv0[k]
      {
        assert k in kv1 && !Kept(kv1, k);
      }
    }

    /** Keys below none of the labels' prefixes survive both loops of setSubRecords unchanged. */
    lemma UntouchedKeys(fqdn: string, sub: map<string, seq<string>>, origins: set<string>,
                        kv0: map<string, string>, kv1: map<string, string>, kv2: map<string, string>)
      requires forall k :: k in kv1 ==> k in kv0 && kv1[k] == kv0[k]
      requires forall k :: k in kv0 && (forall l :: l in origins && l !in sub ==> !HasPrefix(k, SubPath(fqdn, l))) ==> k in kv1
      requires forall k :: k in kv1 && (forall l :: l in sub ==> !HasPrefix(k, SubPath(fqdn, l) + "/")) ==>
                 k in kv2 && kv2[k] == kv1[k]
      ensures forall k :: k in kv0 && (forall l :: (l in origins || l in sub) ==> !HasPrefix(k, SubPath(fqdn, l))) ==>
                k in kv2 && kv2[k] == kv0[k]
    {
      forall k | k in kv0 && (forall l :: (l in origins || l in sub) ==> !HasPrefix(k, SubPath(fqdn, l)))
        ensures k in kv2 && kv2[k] == kv0[k]
      {
        assert k in kv1;
        forall l | l in sub
          ensures !HasPrefix(k, SubPath(fqdn, l) + "/")
        {
          if HasPrefix(k, SubPath(fqdn, l) + "/") {
            BelowDirIsBelow(k, SubPath(fqdn, l));
          }
        }
      }
    }

    /** A key the deletes left alone and the syncs did not change is as it was at the start. */
    lemma ChangedSinceDeletes(fqdn: string, sub: map<string, seq<string>>,
                              kv0: map<string, string>, kv1: map<string, string>, kv2: map<string, string>)
      requires forall k :: k in kv1 ==> k in kv0 && kv1[k] == kv0[k]
      requires forall k :: k in kv2 && !(k in kv1 && kv2[k] == kv1[k]) ==>
                 exists l :: l in sub && HasPrefix(k, SubPath(fqdn, l) + "/")
      ensures forall k :: k in kv2 && !(k in kv0 && kv2[k] == kv0[k]) ==>
                exists l :: l in sub && HasPrefix(k, SubPath(fqdn, l) + "/")
    {
      forall k | k in kv2 && !(k in kv0 && kv2[k] == kv0[k])
        ensures exists l :: l in sub && HasPrefix(k, SubPath(fqdn, l) + "/")
      {
        assert !(k in kv1 && kv2[k] == kv1[k]);
      }
    }

    /** No key of a dropped label comes back with the syncs of the requested labels. */
    lemma DroppedStayGone(fqdn: string, sub: map<string, seq<string>>, origins: set<string>,
                          kv1: map<string, string>, kv2: map<string, string>)
      requires forall l :: l in origins || l in sub ==> WellFormedLabel(l)
      requires forall l, k :: l in origins && l !in sub && k in kv1 ==> !HasPrefix(k, SubPath(fqdn, l))
      requires forall k :: k in kv2 && !(k in kv1 && kv2[k] == kv1[k]) ==>
                 exists l :: l in sub && HasPrefix(k, SubPath(fqdn, l) + "/")
      ensures forall l, k :: l in origins && l !in sub && k in kv2 ==> !HasPrefix(k, SubPath(fqdn, l) + "/")
    {
      forall l, k | l in origins && l !in sub && k in kv2
        ensures !HasPrefix(k, SubPath(fqdn, l) + "/")
      {
        if HasPrefix(k, SubPath(fqdn, l) + "/") {
          if k in kv1 && kv2[k] == kv1[k] {
            BelowDirIsBelow(k, SubPath(fqdn, l));
          } else {
            var m :| m in sub && HasPrefix(k, SubPath(fqdn, m) + "/");
            GetPathOfSubdomain(prefix, l, fqdn);
            GetPathOfSubdomain(prefix, m, fqdn);
            SameDirectory(GetPath(prefix, fqdn), l, m, k);
          }
        }
      }
    }
  }
}

/**
 * The key layout the two etcd backends share: a domain name is stored under the
 * path made of its labels in reverse order, each host of the domain is a key
 * below that path named after the host with its dots escaped, and the value of a
 * key is a one-field JSON object. The keyspace itself is a map held by `Store`,
 * and `Store.SyncRecords` is the host diff both backends apply under a path.
 */
module EtcdKeys {
  import opened GoStrings
  import opened Outcomes

  /** The JSON field a host value is stored under. */
  const ValueHostKey := "host"
  /** The JSON field a TXT value is stored under. */
  const ValueTextKey := "text"

  // ---------------------------------------------------------------------------
  // Domain names and etcd paths

  function Reverse<T>(s: seq<T>): (r: seq<T>)
    ensures |r| == |s|
    ensures forall i :: 0 <= i < |s| ==> r[i] == s[|s| - 1 - i]
  {
    if s == [] then [] else Reverse(s[1..]) + [s[0]]
  }

  lemma ReverseReverse<T>(s: seq<T>)
    ensures Reverse(Reverse(s)) == s
  {
  }

  /** The etcd path of a domain: "/" followed by its labels from the last to the first. */
  function PathOf(domain: string): string {
    "/" + Join(Reverse(Labels(domain)), "/")
  }

  /** The domain an etcd path stands for: its segments after the leading "/", reversed. */
  function DomainOf(path: string): string {
    Join(Reverse(Split(path, "/")[1..]), ".")
  }

  /** The swap loop of convertToPath: reverse the slice in place, swapping from both ends. */
  method ReverseInPlace(ss: array<string>)
    modifies ss
    ensures ss[..] == Reverse(old(ss[..]))
  {
    ghost var orig := ss[..];
    var last := ss.Length - 1;
    var i := 0;
    while i < ss.Length / 2
      invariant 0 <= i <= ss.Length / 2
      invariant forall k :: 0 <= k < i ==> ss[k] == orig[last - k] && ss[last - k] == orig[k]
      invariant forall k :: i <= k <= last - i ==> ss[k] == orig[k]
    {
      ss[i], ss[last - i] := ss[last - i], ss[i];
      i := i + 1;
    }
    forall k | 0 <= k < ss.Length
      ensures ss[k] == orig[last - k]
    {
      if i <= k <= last - i {
        assert k == last - k;
      } else if k > last - i {
        assert ss[last - (last - k)] == orig[last - k];
      }
    }
    ReverseByIndex(orig, ss[..]);
  }

  /** A sequence whose every entry mirrors another's is its reverse. */
  lemma ReverseByIndex<T>(s: seq<T>, r: seq<T>)
    requires |r| == |s| && forall k :: 0 <= k < |r| ==> r[k] == s[|s| - 1 - k]
    ensures r == Reverse(s)
  {
    var rev := Reverse(s);
    assert forall k :: 0 <= k < |r| ==> r[k] == rev[k];
  }

  /**
   * convertToPath: split the domain on ".", reverse the labels in place, and join
   * them with "/" after a leading "/".
   */
  method ConvertToPath(domain: string) returns (path: string)
    ensures path == PathOf(domain)
  {
    var labels := Labels(domain);
    var ss := new string[|labels|](i requires 0 <= i < |labels| => labels[i]);
    assert ss[..] == labels;
    ReverseInPlace(ss);
    path := "/" + Join(ss[..], "/");
  }

  /** A domain without "/" is recovered from its path. */
  lemma PathRoundTrip(domain: string)
    requires '/' !in domain
    ensures DomainOf(PathOf(domain)) == domain
  {
    var ls := Labels(domain);
    var rs := Reverse(ls);
    LabelsNoDot(domain);
    SplitPiecesAvoid(domain, '.', '/');
    assert forall i :: 0 <= i < |rs| ==> rs[i] in ls;
    SplitJoin(rs, '/');
    SplitConcat("", '/', Join(rs, "/"));
    assert "/" + Join(rs, "/") == "" + ['/'] + Join(rs, "/");
    assert Split("", "/") == [""];
    assert Split(PathOf(domain), "/")[1..] == rs;
    ReverseReverse(ls);
    JoinLabels(domain);
  }

  /** The path of a one-label subdomain is the path of its parent plus that label. */
  lemma PathOfSubdomain(l: string, fqdn: string)
    requires '.' !in l
    ensures PathOf(l + "." + fqdn) == PathOf(fqdn) + "/" + l
  {
    LabelsConcat(l, fqdn);
    LabelsOfLabel(l);
    LabelsNoDot(fqdn);
    var ls := Labels(fqdn);
    assert Labels(l + "." + fqdn) == [l] + ls;
    assert Reverse([l] + ls) == Reverse(ls) + [l] by {
      assert ([l] + ls)[1..] == ls;
    }
    JoinAppend(Reverse(ls), [l], "/");
  }

  /** Two keys below sibling directories `base/a/` and `base/b/` name the same directory only if a == b. */
  lemma SameDirectory(base: string, a: string, b: string, k: string)
    requires '/' !in a && '/' !in b
    requires HasPrefix(k, base + "/" + a + "/") && HasPrefix(k, base + "/" + b + "/")
    ensures a == b
  {
    var i := |base| + 1;
    var pa, pb := base + "/" + a + "/", base + "/" + b + "/";
    var rest := k[i..];
    assert rest[..|a|] == pa[i..i + |a|] == a && rest[|a|] == pa[i + |a|] == '/';
    assert rest[..|b|] == pb[i..i + |b|] == b && rest[|b|] == pb[i + |b|] == '/';
    IndexIsFirst(rest, '/', |a|);
    IndexIsFirst(rest, '/', |b|);
  }

  /** The example of convertToPath's comment. */
  lemma PathOfExample(d: string)
    requires d == "zhibo.test.rancher.local"
    ensures PathOf(d) == "/local/rancher/test/zhibo"
  {
    var ls := ["zhibo", "test", "rancher", "local"];
    assert Labels(d) == ls by {
      ExampleLabels(ls, d);
      LabelsOfJoin(ls);
    }
    var rs := ["local", "rancher", "test", "zhibo"];
    ReverseFour("zhibo", "test", "rancher", "local");
    ExamplePath(rs);
  }

  lemma ReverseFour<T>(a: T, b: T, c: T, d: T)
    ensures Reverse([a, b, c, d]) == [d, c, b, a]
  {
    var r := Reverse([a, b, c, d]);
    assert r[0] == d && r[1] == c && r[2] == b && r[3] == a;
  }

  lemma ExampleLabels(ls: seq<string>, d: string)
    requires ls == ["zhibo", "test", "rancher", "local"] && d == "zhibo.test.rancher.local"
    ensures Join(ls, ".") == d
  {
    JoinFour("zhibo", "test", "rancher", "local", ".");
  }

  lemma ExamplePath(rs: seq<string>)
    requires rs == ["local", "rancher", "test", "zhibo"]
    ensures "/" + Join(rs, "/") == "/local/rancher/test/zhibo"
  {
    JoinFour("local", "rancher", "test", "zhibo", "/");
  }

  lemma JoinFour(a: string, b: string, c: string, d: string, sep: string)
    ensures Join([a, b, c, d], sep) == a + sep + b + sep + c + sep + d
  {
    var ss := [a, b, c, d];
    assert ss[1..] == [b, c, d] && [b, c, d][1..] == [c, d] && [c, d][1..] == [d];
    assert Join([c, d], sep) == c + sep + d;
    assert Join([b, c, d], sep) == b + sep + (c + sep + d);
    assert Join(ss, sep) == a + sep + (b + sep + (c + sep + d));
  }

  // ---------------------------------------------------------------------------
  // Key escaping

  /** formatKey: every "." of a host becomes "_", so a host is one path segment. */
  function FormatKey(key: string): (r: string)
    ensures |r| == |key|
    ensures '.' !in r
    ensures forall i :: 0 <= i < |key| && key[i] != '.' ==> r[i] == key[i]
    ensures forall i :: 0 <= i < |key| && key[i] == '.' ==> r[i] == '_'
  {
    ReplaceChar(key, '.', '_')
  }

  /** Undoing the escape, for keys of hosts that contain no "_". */
  function UnformatKey(key: string): string {
    ReplaceChar(key, '_', '.')
  }

  lemma FormatKeyRoundTrip(key: string)
    requires '_' !in key
    ensures UnformatKey(FormatKey(key)) == key
  {
  }

  /** Hosts without "_" get distinct keys. */
  lemma FormatKeyInjective(a: string, b: string)
    requires '_' !in a && '_' !in b
    requires FormatKey(a) == FormatKey(b)
    ensures a == b
  {
    FormatKeyRoundTrip(a);
    FormatKeyRoundTrip(b);
  }

  // ---------------------------------------------------------------------------
  // Values: one-field JSON objects

  /** A JSON object with one string field, as the backends write them. */
  datatype Field = Field(name: string, value: string)

  function Encode(f: Field): string {
    "{\"" + f.name + "\":\"" + f.value + "\"}"
  }

  /** A string that needs no escaping inside JSON quotes. */
  predicate PlainString(s: string) {
    '"' !in s && '\\' !in s
  }

  /** The inside of a one-field object: `<name>":"<value>`. */
  function ParseBody(body: string): (r: Option<Field>)
    ensures r.Some? ==> body == r.value.name + "\":\"" + r.value.value
    ensures r.Some? ==> PlainString(r.value.name) && PlainString(r.value.value)
  {
    var m := Index(body, "\":\"");
    if m < 0 then None
    else
      var name, value := body[..m], body[m + 3..];
      if PlainString(name) && PlainString(value) then
        assert body == name + body[m..m + 3] + value;
        Some(Field(name, value))
      else None
  }

  /**
   * Reading back a value: the one-field objects whose name and value need no
   * escaping; everything else does not parse.
   */
  function ParseField(s: string): (r: Option<Field>)
    ensures r.Some? ==> Encode(r.value) == s && PlainString(r.value.name) && PlainString(r.value.value)
  {
    if |s| >= 4 && s[..2] == "{\"" && s[|s| - 2..] == "\"}" then
      assert s == s[..2] + s[2..|s| - 2] + s[|s| - 2..];
      ParseBody(s[2..|s| - 2])
    else None
  }

  /** Every plainly written field parses back to itself. */
  lemma ParseEncode(f: Field)
    requires PlainString(f.name) && PlainString(f.value)
    ensures ParseField(Encode(f)) == Some(f)
  {
    var body := f.name + "\":\"" + f.value;
    Enclosed("{\"", body, "\"}");
    assert Encode(f) == "{\"" + body + "\"}";
    ParseBodyJoin(f.name, f.value);
  }

  /** A plainly written body splits at its first `":"`, which ends the name. */
  lemma ParseBodyJoin(name: string, value: string)
    requires PlainString(name) && PlainString(value)
    ensures ParseBody(name + "\":\"" + value) == Some(Field(name, value))
  {
    var body := name + "\":\"" + value;
    assert body[|name|..|name| + 3] == "\":\"";
    assert forall i :: 0 <= i < |name| ==> body[i] == name[i];
    IndexFirstOccurrence(body, "\":\"", |name|);
    assert body[..|name|] == name;
    assert body[|name| + 3..] == value;
  }

  /** The three parts of a + b + c are where they were put. */
  lemma Enclosed<T>(a: seq<T>, b: seq<T>, c: seq<T>)
    ensures var s := a + b + c;
      s[..|a|] == a && s[|s| - |c|..] == c && s[|a|..|s| - |c|] == b
  {
  }

  /** formatValue: a host wrapped as {"host":"<host>"}. */
  function FormatValue(host: string): string {
    Encode(Field(ValueHostKey, host))
  }

  /** formatTextValue: a TXT value wrapped as {"text":"<text>"}. */
  function FormatTextValue(text: string): string {
    Encode(Field(ValueTextKey, text))
  }

  /**
   * The "host" entry of a decoded value: None when the value does not parse, the
   * empty string when the object has another field (a missing Go map key).
   */
  function HostOf(value: string): Option<string> {
    match ParseField(value)
    case None => None
    case Some(f) => Some(if f.name == ValueHostKey then f.value else "")
  }

  /** The "text" entry of a decoded value, in the same way. */
  function TextOf(value: string): Option<string> {
    match ParseField(value)
    case None => None
    case Some(f) => Some(if f.name == ValueTextKey then f.value else "")
  }

  /** A value that decodes to an object with a "text" field. */
  predicate IsTextValue(value: string) {
    ParseField(value).Some? && ParseField(value).value.name == ValueTextKey
  }

  /** Host and TXT values decode back to what was wrapped, and never to each other. */
  lemma FormatValueRoundTrip(v: string)
    requires PlainString(v)
    ensures HostOf(FormatValue(v)) == Some(v) && !IsTextValue(FormatValue(v))
    ensures TextOf(FormatTextValue(v)) == Some(v) && IsTextValue(FormatTextValue(v))
    ensures HostOf(FormatTextValue(v)) == Some("")
  {
    ParseEncode(Field(ValueHostKey, v));
    ParseEncode(Field(ValueTextKey, v));
  }

  // ---------------------------------------------------------------------------
  // sliceToMap

  /** sliceToMap: a set of the slice's elements, as a map to true. */
  method SliceToMap(ss: seq<string>) returns (m: map<string, bool>)
    ensures m.Keys == set s | s in ss
    ensures forall s :: s in m ==> m[s]
  {
    m := map[];
    var i := 0;
    while i < |ss|
      invariant 0 <= i <= |ss|
      invariant m.Keys == set s | s in ss[..i]
      invariant forall s :: s in m ==> m[s]
    {
      assert ss[..i + 1] == ss[..i] + [ss[i]];
      m := m[ss[i] := true];
      i := i + 1;
    }
    assert ss[..i] == ss;
  }

  // ---------------------------------------------------------------------------
  // Host keys below a path

  /** The key of a host below a path. */
  function HostKey(path: string, host: string): string {
    path + "/" + FormatKey(host)
  }

  /** A host that can be stored and read back unambiguously. */
  predicate WellFormedHost(h: string) {
    '_' !in h && '/' !in h && PlainString(h)
  }

  /**
   * The keys below `path` + "/" are exactly the keys of `hosts`, each holding its
   * wrapped host.
   */
  ghost predicate HoldsHosts(kv: map<string, string>, path: string, hosts: set<string>) {
    (forall k :: k in kv && HasPrefix(k, path + "/") ==> exists h :: h in hosts && k == HostKey(path, h)) &&
    (forall h :: h in hosts ==> HostKey(path, h) in kv && kv[HostKey(path, h)] == FormatValue(h))
  }

  /** Hosts that can all be stored and read back. */
  predicate WellFormedHosts(hosts: set<string>) {
    forall h :: h in hosts ==> WellFormedHost(h)
  }

  /** `kv'` agrees with `kv` on every key that does not start with `p`. */
  ghost predicate SameOutside(kv: map<string, string>, kv': map<string, string>, p: string) {
    forall k :: !HasPrefix(k, p) ==> (k in kv <==> k in kv') && (k in kv ==> kv[k] == kv'[k])
  }

  /** The hosts of a list, as a set. */
  function HostSet(hosts: seq<string>): set<string> {
    set h | h in hosts
  }

  /** Keys a diff from `oldHosts` to `newHosts` deletes. */
  function Removed(newHosts: seq<string>, oldHosts: seq<string>, path: string): set<string> {
    set h | h in oldHosts && h !in newHosts :: HostKey(path, h)
  }

  /** Keys a diff from `oldHosts` to `newHosts` puts. */
  function Added(newHosts: seq<string>, oldHosts: seq<string>, path: string): set<string> {
    set h | h in newHosts && h !in oldHosts :: HostKey(path, h)
  }

  /** The keys of the hosts in `done` that are not old hosts. */
  function KeysOf(done: set<string>, oldSet: set<string>, path: string): set<string> {
    set l | l in done && l !in oldSet :: HostKey(path, l)
  }

  /** Taking one more host out of the put loop's to-do set. */
  lemma KeysOfStep(all: set<string>, todo: set<string>, l: string, oldSet: set<string>, path: string)
    requires l in todo && todo <= all
    ensures KeysOf(all - (todo - {l}), oldSet, path) ==
      KeysOf(all - todo, oldSet, path) + (if l !in oldSet then {HostKey(path, l)} else {})
  {
    assert all - (todo - {l}) == (all - todo) + {l};
  }

  /** `v` is the value the diff writes at key `k`, for some new host. */
  ghost predicate PutFor(newHosts: seq<string>, oldHosts: seq<string>, path: string, k: string, v: string) {
    exists h :: h in newHosts && h !in oldHosts && HostKey(path, h) == k && v == FormatValue(h)
  }

  lemma HostKeyUnder(path: string, h: string)
    ensures HasPrefix(HostKey(path, h), path + "/")
  {
    assert HostKey(path, h)[..|path| + 1] == path + "/";
  }

  lemma HostKeyInjective(path: string, a: string, b: string)
    requires '_' !in a && '_' !in b
    requires HostKey(path, a) == HostKey(path, b)
    ensures a == b
  {
    assert FormatKey(a) == HostKey(path, a)[|path| + 1..];
    assert FormatKey(b) == HostKey(path, b)[|path| + 1..];
    FormatKeyInjective(a, b);
  }

  /**
   * After the diff, the keys directly below the path are exactly those of the new
   * hosts, each holding its wrapped host, provided they were exactly those of the
   * old hosts before and every host is well formed.
   */
  lemma {:induction false} DiffHoldsNewHosts(
    before: map<string, string>, after: map<string, string>,
    newHosts: seq<string>, oldHosts: seq<string>, path: string)
    requires HoldsHosts(before, path, set h | h in oldHosts)
    requires forall h :: h in newHosts ==> WellFormedHost(h)
    requires forall h :: h in oldHosts ==> WellFormedHost(h)
    requires after.Keys == (before.Keys - Removed(newHosts, oldHosts, path)) + Added(newHosts, oldHosts, path)
    requires forall k :: k in after && k !in Added(newHosts, oldHosts, path) ==> after[k] == before[k]
    requires forall k :: k in Added(newHosts, oldHosts, path) ==> PutFor(newHosts, oldHosts, path, k, after[k])
    ensures HoldsHosts(after, path, set h | h in newHosts)
  {
    var rem, add := Removed(newHosts, oldHosts, path), Added(newHosts, oldHosts, path);
    forall h | h in newHosts
      ensures HostKey(path, h) in after && after[HostKey(path, h)] == FormatValue(h)
    {
      var k := HostKey(path, h);
      if h in oldHosts {
        assert k in before;
        if k in rem {
          var r :| r in oldHosts && r !in newHosts && HostKey(path, r) == k;
          HostKeyInjective(path, r, h);
        }
        if k in add {
          var n :| n in newHosts && n !in oldHosts && HostKey(path, n) == k;
          HostKeyInjective(path, n, h);
        }
      } else {
        assert k in add;
        var n :| n in newHosts && n !in oldHosts && HostKey(path, n) == k && after[k] == FormatValue(n);
        HostKeyInjective(path, n, h);
      }
    }
    forall k | k in after && HasPrefix(k, path + "/")
      ensures exists h :: h in newHosts && k == HostKey(path, h)
    {
      if k !in add {
        assert k in before;
        var h :| h in oldHosts && k == HostKey(path, h);
      }
    }
  }

  /** A diff below `path` changes only keys below `path + "/"`. */
  lemma DiffStaysBelow(kv: map<string, string>, kv': map<string, string>, newHosts: seq<string>, oldHosts: seq<string>, path: string)
    requires kv'.Keys == (kv.Keys - Removed(newHosts, oldHosts, path)) + Added(newHosts, oldHosts, path)
    requires forall k :: k in kv' && k !in Added(newHosts, oldHosts, path) ==> kv'[k] == kv[k]
    ensures SameOutside(kv, kv', path + "/")
  {
    forall k | k in Removed(newHosts, oldHosts, path) + Added(newHosts, oldHosts, path)
      ensures HasPrefix(k, path + "/")
    {
      var h :| (h in oldHosts || h in newHosts) && k == HostKey(path, h);
      HostKeyUnder(path, h);
    }
  }

  // ---------------------------------------------------------------------------
  // The keyspace

  /** An etcd keyspace: keys to values. */
  class Store {
    var kv: map<string, string>

    constructor (init: map<string, string>)
      ensures kv == init
    {
      kv := init;
    }

    /** A put: the key now holds the value. */
    method Put(key: string, value: string)
      modifies this
      ensures kv == old(kv)[key := value]
    {
      kv := kv[key := value];
    }

    /** A delete of one key; deleting a missing key changes nothing. */
    method Delete(key: string)
      modifies this
      ensures kv == old(kv) - {key}
    {
      kv := kv - {key};
    }

    /** A delete with the prefix option: every key that starts with `prefix` goes. */
    method DeletePrefix(prefix: string)
      modifies this
      ensures kv == map k | k in old(kv) && !HasPrefix(k, prefix) :: old(kv)[k]
    {
      kv := map k | k in kv && !HasPrefix(k, prefix) :: kv[k];
    }

    /** The delete loop of syncRecords, over the two hosts lists' sets. */
    method DeleteStale(newHosts: seq<string>, oldHosts: seq<string>, newSet: set<string>, oldSet: set<string>, path: string)
      requires newSet == set h | h in newHosts
      requires oldSet == set h | h in oldHosts
      modifies this
      ensures kv.Keys == old(kv).Keys - Removed(newHosts, oldHosts, path)
      ensures forall k :: k in kv ==> kv[k] == old(kv)[k]
    {
      ghost var kv0 := kv;
      var todo := oldSet;
      while todo != {}
        invariant todo <= oldSet
        invariant kv.Keys == kv0.Keys - (set r | r in oldSet - todo && r !in newSet :: HostKey(path, r))
        invariant forall k :: k in kv ==> kv[k] == kv0[k]
        decreases todo
      {
        var r :| r in todo;
        if r !in newSet {
          Delete(HostKey(path, r));
        }
        todo := todo - {r};
      }
    }

    /** The put loop of syncRecords, over the two hosts lists' sets. */
    method PutFresh(newHosts: seq<string>, oldHosts: seq<string>, newSet: set<string>, oldSet: set<string>, path: string)
      requires newSet == set h | h in newHosts
      requires oldSet == set h | h in oldHosts
      modifies this
      ensures kv.Keys == old(kv).Keys + Added(newHosts, oldHosts, path)
      ensures forall k :: k in kv && k !in Added(newHosts, oldHosts, path) ==> kv[k] == old(kv)[k]
      ensures forall k :: k in Added(newHosts, oldHosts, path) ==> PutFor(newHosts, oldHosts, path, k, kv[k])
    {
      ghost var kv0 := kv;
      var todo := newSet;
      while todo != {}
        invariant todo <= newSet
        invariant kv.Keys == kv0.Keys + KeysOf(newSet - todo, oldSet, path)
        invariant forall k :: k in kv && k !in KeysOf(newSet - todo, oldSet, path) ==> kv[k] == kv0[k]
        invariant forall l :: l in newSet - todo && l !in oldSet ==> PutFor(newHosts, oldHosts, path, HostKey(path, l), kv[HostKey(path, l)])
        decreases todo
      {
        var l :| l in todo;
        if l !in oldSet {
          Put(HostKey(path, l), FormatValue(l));
        }
        KeysOfStep(newSet, todo, l, oldSet, path);
        todo := todo - {l};
      }
      assert KeysOf(newSet, oldSet, path) == Added(newHosts, oldHosts, path);
    }

    /**
     * syncRecords: delete the key of every old host that is not a new host, then
     * put the key of every new host that is not an old host. Keys of hosts in
     * both lists, and every other key, are left as they were.
     */
    method SyncRecords(newHosts: seq<string>, oldHosts: seq<string>, path: string)
      modifies this
      ensures kv.Keys == (old(kv).Keys - Removed(newHosts, oldHosts, path)) + Added(newHosts, oldHosts, path)
      ensures forall k :: k in kv && k !in Added(newHosts, oldHosts, path) ==> kv[k] == old(kv)[k]
      ensures forall k :: k in Added(newHosts, oldHosts, path) ==> PutFor(newHosts, oldHosts, path, k, kv[k])
      ensures HoldsHosts(old(kv), path, set h | h in oldHosts) &&
              (forall h :: h in newHosts ==> WellFormedHost(h)) &&
              (forall h :: h in oldHosts ==> WellFormedHost(h))
              ==> HoldsHosts(kv, path, set h | h in newHosts)
      ensures SameOutside(old(kv), kv, path + "/")
    {
      var left := SliceToMap(newHosts);
      var right := SliceToMap(oldHosts);
      ghost var kv0 := kv;
      DeleteStale(newHosts, oldHosts, left.Keys, right.Keys, path);
      PutFresh(newHosts, oldHosts, left.Keys, right.Keys, path);
      if HoldsHosts(kv0, path, set h | h in oldHosts) &&
         (forall h :: h in newHosts ==> WellFormedHost(h)) &&
         (forall h :: h in oldHosts ==> WellFormedHost(h)) {
        DiffHoldsNewHosts(kv0, kv, newHosts, oldHosts, path);
      }
      DiffStaysBelow(kv0, kv, newHosts, oldHosts, path);
    }
  }
}

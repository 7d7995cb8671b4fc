/**
 * The legacy etcd backend (etcd v2 API). A domain is a directory
 * `prePath + PathOf(fqdn)` whose leaf children are its hosts, one key
 * `<path>/<host with "." escaped>` per host holding {"host":"<host>"}. The
 * path, key and value helpers and the host diff are those of EtcdKeys; the
 * directory listings etcd answers a Get with are inputs here.
 */
module Etcd {
  import opened GoStrings
  import opened Outcomes
  import opened EtcdKeys

  const MaxSlugHashTimes := 100
  const SlugChars := "0123456789abcdefghijklmnopqrstuvwxyz"
  const SlugLength := 6

  datatype Error =
    | KeyNotFound  // the directory a Set with PrevExist names is missing
    | Unmarshal    // a child value that is not a JSON object

  /** A child node of a directory listing: a leaf with its value, or a directory, whose value is empty. */
  datatype Node = Leaf(key: string, value: string) | Dir(key: string)

  function NodeValue(n: Node): string {
    match n
    case Leaf(_, v) => v
    case Dir(_) => ""
  }

  /** `hs` in front of a successful result. */
  function Prepend(hs: seq<string>, r: Result<seq<string>, Error>): Result<seq<string>, Error> {
    match r
    case Ok(t) => Ok(hs + t)
    case Err(e) => Err(e)
  }

  /** The invariant of the read loops at the start: no hosts read yet in front of the whole listing's result. */
  lemma PrependNothing(r: Result<seq<string>, Error>)
    ensures Prepend([], r) == r
  {
    if r.Ok? {
      assert [] + r.value == r.value;
    }
  }

  /** One step of the read loops: the host of the next node moves from the rest's result to the hosts read. */
  lemma PrependAppend(hs: seq<string>, h: string, r: Result<seq<string>, Error>)
    ensures Prepend(hs, Prepend([h], r)) == Prepend(hs + [h], r)
  {
    if r.Ok? {
      assert hs + ([h] + r.value) == hs + [h] + r.value;
    }
  }

  // ---------------------------------------------------------------------------
  // Reading a listing

  /** The leaves of a listing, in order. */
  function Leaves(nodes: seq<Node>): (r: seq<Node>)
    ensures |r| <= |nodes|
    ensures forall n :: n in r ==> n.Leaf? && n in nodes
    ensures forall n :: n in nodes && n.Leaf? ==> n in r
  {
    if nodes == [] then []
    else (if nodes[0].Leaf? then [nodes[0]] else []) + Leaves(nodes[1..])
  }

  /**
   * Get's collection: the "host" entry of every leaf, in listing order; directory
   * children are skipped and the first leaf that does not decode fails.
   */
  function LeafHosts(nodes: seq<Node>): Result<seq<string>, Error> {
    if nodes == [] then Ok([])
    else
      match nodes[0]
      case Dir(_) => LeafHosts(nodes[1..])
      case Leaf(_, v) =>
        match HostOf(v)
        case None => Err(Unmarshal)
        case Some(h) => Prepend([h], LeafHosts(nodes[1..]))
  }

  /**
   * lookupHosts' collection: the "host" entry of every child, in listing order;
   * a directory child has the empty value, which does not decode, so it fails.
   */
  function ChildHosts(nodes: seq<Node>): Result<seq<string>, Error> {
    if nodes == [] then Ok([])
    else
      match HostOf(NodeValue(nodes[0]))
      case None => Err(Unmarshal)
      case Some(h) => Prepend([h], ChildHosts(nodes[1..]))
  }

  /** Directory children make no difference to Get. */
  lemma {:induction false} LeafHostsSkipsDirs(nodes: seq<Node>)
    ensures LeafHosts(nodes) == LeafHosts(Leaves(nodes))
  {
    if nodes != [] {
      LeafHostsSkipsDirs(nodes[1..]);
      if nodes[0].Leaf? {
        assert Leaves(nodes) == [nodes[0]] + Leaves(nodes[1..]);
        assert Leaves(nodes)[1..] == Leaves(nodes[1..]);
      } else {
        assert Leaves(nodes) == Leaves(nodes[1..]);
      }
    }
  }

  /** Get returns one host per leaf. */
  lemma {:induction false} LeafHostsCount(nodes: seq<Node>)
    ensures LeafHosts(nodes).Ok? ==> |LeafHosts(nodes).value| == |Leaves(nodes)|
  {
    if nodes != [] {
      LeafHostsCount(nodes[1..]);
    }
  }

  /** lookupHosts succeeds only on listings without directories, and then agrees with Get. */
  lemma {:induction false} ChildHostsAgree(nodes: seq<Node>)
    ensures ChildHosts(nodes).Ok? ==> (forall n :: n in nodes ==> n.Leaf?) && ChildHosts(nodes) == LeafHosts(nodes)
  {
    if nodes != [] {
      ChildHostsAgree(nodes[1..]);
      assert ParseField("") == None;
      if ChildHosts(nodes).Ok? {
        assert forall n :: n in nodes ==> n == nodes[0] || n in nodes[1..];
      }
    }
  }

  /** The listing of a directory holding `hosts`, one leaf per host in that order. */
  function HostLeaves(path: string, hosts: seq<string>): (r: seq<Node>)
    ensures |r| == |hosts|
  {
    if hosts == [] then []
    else [Leaf(HostKey(path, hosts[0]), FormatValue(hosts[0]))] + HostLeaves(path, hosts[1..])
  }

  /** Reading the listing of a directory of host keys gives back its hosts, in order, both ways. */
  lemma {:induction false} ReadHostLeaves(path: string, hosts: seq<string>)
    requires forall h :: h in hosts ==> PlainString(h)
    ensures LeafHosts(HostLeaves(path, hosts)) == Ok(hosts)
    ensures ChildHosts(HostLeaves(path, hosts)) == Ok(hosts)
  {
    if hosts != [] {
      var leaf := Leaf(HostKey(path, hosts[0]), FormatValue(hosts[0]));
      var rest := HostLeaves(path, hosts[1..]);
      var nodes := HostLeaves(path, hosts);
      assert nodes[0] == leaf && nodes[1..] == rest by {
        assert nodes == [leaf] + rest;
      }
      ReadHostLeaves(path, hosts[1..]);
      FormatValueRoundTrip(hosts[0]);
      assert [hosts[0]] + hosts[1..] == hosts;
    }
  }

  /** Get's loop over the child nodes. */
  method CollectLeafHosts(nodes: seq<Node>) returns (r: Result<seq<string>, Error>)
    ensures r == LeafHosts(nodes)
  {
    var hosts: seq<string> := [];
    var i := 0;
    assert nodes[i..] == nodes;
    PrependNothing(LeafHosts(nodes));
    while i < |nodes|
      invariant 0 <= i <= |nodes|
      invariant LeafHosts(nodes) == Prepend(hosts, LeafHosts(nodes[i..]))
    {
      assert nodes[i..][0] == nodes[i] && nodes[i..][1..] == nodes[i + 1..];
      if nodes[i].Leaf? {
        var host := HostOf(nodes[i].value);
        if host.None? {
          return Err(Unmarshal);
        }
        PrependAppend(hosts, host.value, LeafHosts(nodes[i + 1..]));
        hosts := hosts + [host.value];
      }
      i := i + 1;
    }
    assert nodes[i..] == [] && hosts + [] == hosts;
    r := Ok(hosts);
  }

  /** lookupHosts' loop over the child nodes. */
  method LookupHosts(nodes: seq<Node>) returns (r: Result<seq<string>, Error>)
    ensures r == ChildHosts(nodes)
  {
    var hosts: seq<string> := [];
    var i := 0;
    assert nodes[i..] == nodes;
    PrependNothing(ChildHosts(nodes));
    while i < |nodes|
      invariant 0 <= i <= |nodes|
      invariant ChildHosts(nodes) == Prepend(hosts, ChildHosts(nodes[i..]))
    {
      assert nodes[i..][0] == nodes[i] && nodes[i..][1..] == nodes[i + 1..];
      var host := HostOf(NodeValue(nodes[i]));
      if host.None? {
        return Err(Unmarshal);
      }
      PrependAppend(hosts, host.value, ChildHosts(nodes[i + 1..]));
      hosts := hosts + [host.value];
      i := i + 1;
    }
    assert nodes[i..] == [] && hosts + [] == hosts;
    r := Ok(hosts);
  }

  // ---------------------------------------------------------------------------
  // Slugs

  /** The slug a sequence of draws below 36 spells. */
  function SlugOf(rolls: seq<int>): (r: string)
    requires |rolls| == SlugLength && forall i :: 0 <= i < |rolls| ==> 0 <= rolls[i] < |SlugChars|
    ensures |r| == SlugLength && forall c :: c in r ==> c in SlugChars
  {
    seq(SlugLength, i requires 0 <= i < SlugLength => SlugChars[rolls[i]])
  }

  /**
   * generateSlug: six characters, the i-th being the alphabet character at the
   * i-th draw of rand.Intn(36); the draws are an input.
   */
  method GenerateSlug(rolls: seq<int>) returns (slug: string)
    requires |rolls| == SlugLength && forall i :: 0 <= i < |rolls| ==> 0 <= rolls[i] < |SlugChars|
    ensures slug == SlugOf(rolls)
  {
    var chars := SlugChars;
    var s := new char[SlugLength];
    for i := 0 to SlugLength
      invariant forall j :: 0 <= j < i ==> s[j] == chars[rolls[j]]
    {
      s[i] := chars[rolls[i]];
    }
    slug := s[..];
  }

  /** The position of a character in the slug alphabet. */
  function CharIndex(c: char): (r: int)
    requires c in SlugChars
    ensures 0 <= r < |SlugChars| && SlugChars[r] == c
  {
    Position(SlugChars, c)
  }

  /** The first position of `c` in `s`. */
  function Position(s: string, c: char): (r: nat)
    requires c in s
    ensures r < |s| && s[r] == c
    decreases |s|
  {
    if s[0] == c then 0
    else
      assert c in s[1..] by {
        var k :| 0 <= k < |s| && s[k] == c;
        assert s[1..][k - 1] == c;
      }
      Position(s[1..], c) + 1
  }

  /** Every six-character string over the alphabet is the slug of some draws. */
  lemma SlugReachable(s: string)
    requires |s| == SlugLength && forall c :: c in s ==> c in SlugChars
    ensures var rolls := seq(SlugLength, i requires 0 <= i < SlugLength => CharIndex(s[i]));
      (forall i :: 0 <= i < |rolls| ==> 0 <= rolls[i] < |SlugChars|) &&
      SlugOf(rolls) == s
  {
  }

  // ---------------------------------------------------------------------------
  // The backend

  /** A Get of `path` finds it: a node at the path itself or a key below it. */
  predicate Found(kv: map<string, string>, path: string) {
    exists k :: k in kv && (k == path || HasPrefix(k, path + "/"))
  }

  /**
   * The keyspace `set` leaves behind: the directory node at `path` (an empty
   * value), then the keys of the diff from the current hosts `cur` to `hosts`,
   * every other key as it was.
   */
  ghost predicate SetDone(kv0: map<string, string>, kv: map<string, string>, path: string,
                          hosts: seq<string>, cur: seq<string>)
  {
    var made := kv0[path := ""];
    kv.Keys == (made.Keys - Removed(hosts, cur, path)) + Added(hosts, cur, path) &&
    (forall k :: k in Added(hosts, cur, path) ==> PutFor(hosts, cur, path, k, kv[k])) &&
    SameOutside(made, kv, path + "/")
  }

  /** The directory node at `path` is not below `path/`, so it leaves the hosts held there alone. */
  lemma HoldsHostsDirNode(kv: map<string, string>, path: string, hosts: set<string>)
    requires HoldsHosts(kv, path, hosts)
    ensures HoldsHosts(kv[path := ""], path, hosts)
  {
    assert !HasPrefix(path, path + "/");
    forall h | h in hosts
      ensures HostKey(path, h) != path
    {
      assert |HostKey(path, h)| > |path|;
    }
  }

  /** The keys of a listing. */
  function NodeKeys(nodes: seq<Node>): set<string> {
    if nodes == [] then {} else {nodes[0].key} + NodeKeys(nodes[1..])
  }

  /**
   * `nodes` lists a directory whose keys are all leaves right below it: every
   * node is a leaf holding a key below `dir/` with its value, and every key
   * below `dir/` is listed.
   */
  ghost predicate ListsLeaves(kv: map<string, string>, dir: string, nodes: seq<Node>) {
    HeldLeaves(kv, dir, nodes) &&
    (forall k :: k in kv && HasPrefix(k, dir + "/") ==> k in NodeKeys(nodes))
  }

  /** Every node is a leaf holding a key below `dir/` with its value. */
  ghost predicate HeldLeaves(kv: map<string, string>, dir: string, nodes: seq<Node>) {
    forall i :: 0 <= i < |nodes| ==>
      nodes[i].Leaf? && nodes[i].key in kv && kv[nodes[i].key] == nodes[i].value && HasPrefix(nodes[i].key, dir + "/")
  }

  /** A leaf below a host directory holds the wrapped host its key was made from. */
  lemma HeldLeafHost(kv: map<string, string>, dir: string, hosts: set<string>, n: Node) returns (h: string)
    requires HoldsHosts(kv, dir, hosts) && WellFormedHosts(hosts)
    requires n.Leaf? && n.key in kv && kv[n.key] == n.value && HasPrefix(n.key, dir + "/")
    ensures h in hosts && n.key == HostKey(dir, h) && HostOf(n.value) == Some(h)
  {
    h :| h in hosts && n.key == HostKey(dir, h);
    FormatValueRoundTrip(h);
  }

  /** Get over leaves of a host directory: each leaf gives the host its key was made from. */
  lemma {:induction false} LeafHostsHeld(kv: map<string, string>, dir: string, hosts: set<string>, nodes: seq<Node>)
    requires HoldsHosts(kv, dir, hosts) && WellFormedHosts(hosts) && HeldLeaves(kv, dir, nodes)
    ensures LeafHosts(nodes).Ok?
    ensures forall h :: h in LeafHosts(nodes).value <==> h in hosts && HostKey(dir, h) in NodeKeys(nodes)
  {
    if nodes != [] {
      var h0 := HeldLeafHost(kv, dir, hosts, nodes[0]);
      assert HeldLeaves(kv, dir, nodes[1..]) by {
        forall i | 0 <= i < |nodes[1..]|
          ensures nodes[1..][i] == nodes[i + 1]
        {
        }
      }
      LeafHostsHeld(kv, dir, hosts, nodes[1..]);
      assert LeafHosts(nodes) == Ok([h0] + LeafHosts(nodes[1..]).value);
      assert NodeKeys(nodes) == {HostKey(dir, h0)} + NodeKeys(nodes[1..]);
      OneMoreHost(dir, hosts, h0, LeafHosts(nodes[1..]).value, NodeKeys(nodes[1..]));
    }
  }

  /** The step of LeafHostsHeld: one more key, the key of host `h0`. */
  lemma OneMoreHost(dir: string, hosts: set<string>, h0: string, rest: seq<string>, keys: set<string>)
    requires WellFormedHosts(hosts) && h0 in hosts
    requires forall h :: h in rest <==> h in hosts && HostKey(dir, h) in keys
    ensures forall h :: h in [h0] + rest <==> h in hosts && HostKey(dir, h) in {HostKey(dir, h0)} + keys
  {
    forall h | h in hosts && HostKey(dir, h) == HostKey(dir, h0)
      ensures h == h0
    {
      HostKeyInjective(dir, h, h0);
    }
  }

  /** A Get of a directory holding `hosts`, listed leaf by leaf, answers exactly those hosts. */
  lemma GetHeldHosts(kv: map<string, string>, dir: string, hosts: set<string>, nodes: seq<Node>)
    requires HoldsHosts(kv, dir, hosts) && WellFormedHosts(hosts) && ListsLeaves(kv, dir, nodes)
    ensures LeafHosts(nodes).Ok? && HostSet(LeafHosts(nodes).value) == hosts
  {
    LeafHostsHeld(kv, dir, hosts, nodes);
    forall h | h in hosts
      ensures h in LeafHosts(nodes).value
    {
      HostKeyUnder(dir, h);
    }
  }

  class Backend {
    const prePath: string
    const baseFqdn: string
    const store: Store

    constructor (prePath: string, baseFqdn: string, store: Store)
      ensures this.prePath == prePath && this.baseFqdn == baseFqdn && this.store == store
    {
      this.prePath := prePath;
      this.baseFqdn := baseFqdn;
      this.store := store;
    }

    /** The directory of a name. */
    function Path(fqdn: string): string {
      prePath + PathOf(fqdn)
    }

    /**
     * set: make the directory (with `exist`, it must already be there), read
     * the current hosts from `listing`, the children etcd lists under the path,
     * and diff the keys from them to `hosts`. The result's hosts are the
     * requested ones.
     */
    method Set(path: string, hosts: seq<string>, exist: bool, listing: seq<Node>) returns (r: Result<seq<string>, Error>)
      modifies store
      ensures exist && !Found(old(store.kv), path) ==> r == Err(KeyNotFound) && store.kv == old(store.kv)
      ensures (!exist || Found(old(store.kv), path)) && ChildHosts(listing).Err? ==>
                r.Err? && store.kv == old(store.kv)[path := ""]
      ensures (!exist || Found(old(store.kv), path)) && ChildHosts(listing).Ok? ==>
                r == Ok(hosts) && SetDone(old(store.kv), store.kv, path, hosts, ChildHosts(listing).value)
      ensures (!exist || Found(old(store.kv), path)) && ChildHosts(listing).Ok? &&
              HoldsHosts(old(store.kv), path, HostSet(ChildHosts(listing).value)) &&
              (forall h :: h in hosts ==> WellFormedHost(h)) &&
              (forall h :: h in ChildHosts(listing).value ==> WellFormedHost(h)) ==>
                HoldsHosts(store.kv, path, HostSet(hosts))
    {
      if exist && !Found(store.kv, path) {
        return Err(KeyNotFound);
      }
      ghost var kv0 := store.kv;
      store.Put(path, "");
      var cur := LookupHosts(listing);
      if cur.Err? {
        return Err(cur.error);
      }
      if HoldsHosts(kv0, path, HostSet(cur.value)) {
        HoldsHostsDirNode(kv0, path, HostSet(cur.value));
      }
      store.SyncRecords(hosts, cur.value, path);
      r := Ok(hosts);
    }

    /**
     * The slug loop of Create: up to MaxSlugHashTimes draws, adopting the first
     * whose path is not found. When none is adopted the requested name stays
     * and Create goes on with the path of the last draw.
     */
    method AllocatePath(draw: nat -> string, requested: string) returns (fqdn: string, path: string)
      ensures forall i :: (0 <= i < MaxSlugHashTimes && !Found(store.kv, Path(draw(i) + "." + baseFqdn)) &&
                (forall j :: 0 <= j < i ==> Found(store.kv, Path(draw(j) + "." + baseFqdn)))) ==>
                fqdn == draw(i) + "." + baseFqdn && path == Path(fqdn)
      ensures (forall i :: 0 <= i < MaxSlugHashTimes ==> Found(store.kv, Path(draw(i) + "." + baseFqdn))) ==>
                fqdn == requested && path == Path(draw(MaxSlugHashTimes - 1) + "." + baseFqdn)
    {
      fqdn, path := requested, "";
      var i := 0;
      while i < MaxSlugHashTimes
        invariant 0 <= i <= MaxSlugHashTimes
        invariant forall j :: 0 <= j < i ==> Found(store.kv, Path(draw(j) + "." + baseFqdn))
        invariant fqdn == requested && (i > 0 ==> path == Path(draw(i - 1) + "." + baseFqdn))
      {
        var name := draw(i) + "." + baseFqdn;
        path := Path(name);
        if !Found(store.kv, path) {
          fqdn := name;
          FirstFree(store.kv, draw, i, fqdn, path);
          break;
        }
        i := i + 1;
      }
    }

    /** The first draw whose path is not found decides the name and the path. */
    lemma FirstFree(kv: map<string, string>, draw: nat -> string, k: nat, fqdn: string, path: string)
      requires k < MaxSlugHashTimes && !Found(kv, Path(draw(k) + "." + baseFqdn))
      requires forall j :: 0 <= j < k ==> Found(kv, Path(draw(j) + "." + baseFqdn))
      requires fqdn == draw(k) + "." + baseFqdn && path == Path(fqdn)
      ensures forall i :: (0 <= i < MaxSlugHashTimes && !Found(kv, Path(draw(i) + "." + baseFqdn)) &&
                (forall j :: 0 <= j < i ==> Found(kv, Path(draw(j) + "." + baseFqdn)))) ==>
                fqdn == draw(i) + "." + baseFqdn && path == Path(fqdn)
      ensures !forall i :: 0 <= i < MaxSlugHashTimes ==> Found(kv, Path(draw(i) + "." + baseFqdn))
    {
      forall i | 0 <= i < MaxSlugHashTimes && !Found(kv, Path(draw(i) + "." + baseFqdn)) &&
                 (forall j :: 0 <= j < i ==> Found(kv, Path(draw(j) + "." + baseFqdn)))
        ensures i == k
      {
      }
    }

    /** Get: KeyNotFound for a missing directory, otherwise the hosts of the leaves etcd lists as `children`. */
    method Get(fqdn: string, children: seq<Node>) returns (r: Result<seq<string>, Error>)
      ensures !Found(store.kv, Path(fqdn)) ==> r == Err(KeyNotFound)
      ensures Found(store.kv, Path(fqdn)) ==> r == LeafHosts(children)
    {
      if !Found(store.kv, Path(fqdn)) {
        return Err(KeyNotFound);
      }
      r := CollectLeafHosts(children);
    }
    /**
     * Create: allocate a name and its path, set the hosts there without
     * PrevExist, and answer with a Get of the adopted name, whose children etcd
     * lists as `after`.
     */
    method Create(draw: nat -> string, requested: string, hosts: seq<string>, listing: seq<Node>, after: seq<Node>)
      returns (fqdn: string, path: string, r: Result<seq<string>, Error>)
      modifies store
      ensures forall i :: (0 <= i < MaxSlugHashTimes && !Found(old(store.kv), Path(draw(i) + "." + baseFqdn)) &&
                (forall j :: 0 <= j < i ==> Found(old(store.kv), Path(draw(j) + "." + baseFqdn)))) ==>
                fqdn == draw(i) + "." + baseFqdn && path == Path(fqdn)
      ensures (forall i :: 0 <= i < MaxSlugHashTimes ==> Found(old(store.kv), Path(draw(i) + "." + baseFqdn))) ==>
                fqdn == requested && path == Path(draw(MaxSlugHashTimes - 1) + "." + baseFqdn)
      ensures ChildHosts(listing).Err? ==> r.Err? && store.kv == old(store.kv)[path := ""]
      ensures ChildHosts(listing).Ok? ==>
                SetDone(old(store.kv), store.kv, path, hosts, ChildHosts(listing).value) &&
                r == (if Found(store.kv, Path(fqdn)) then LeafHosts(after) else Err(KeyNotFound))
      ensures ChildHosts(listing).Ok? && path == Path(fqdn) &&
              HoldsHosts(old(store.kv), path, HostSet(ChildHosts(listing).value)) &&
              (forall h :: h in hosts ==> WellFormedHost(h)) &&
              (forall h :: h in ChildHosts(listing).value ==> WellFormedHost(h)) &&
              ListsLeaves(store.kv, path, after) ==>
                r.Ok? && HostSet(r.value) == HostSet(hosts)
    {
      fqdn, path := AllocatePath(draw, requested);
      var written := Set(path, hosts, false, listing);
      if written.Err? {
        return fqdn, path, Err(written.error);
      }
      if path == Path(fqdn) && HoldsHosts(store.kv, path, HostSet(hosts)) && WellFormedHosts(HostSet(hosts)) &&
         ListsLeaves(store.kv, path, after) {
        assert path in store.kv by {
          assert path !in Removed(hosts, ChildHosts(listing).value, path) by {
            forall h ensures HostKey(path, h) != path {
              assert |HostKey(path, h)| > |path|;
            }
          }
        }
        GetHeldHosts(store.kv, path, HostSet(hosts), after);
      }
      r := Get(fqdn, after);
    }

    /** Update: set the hosts of a name whose directory must already exist. */
    method Update(fqdn: string, hosts: seq<string>, listing: seq<Node>) returns (r: Result<seq<string>, Error>)
      modifies store
      ensures !Found(old(store.kv), Path(fqdn)) ==> r == Err(KeyNotFound) && store.kv == old(store.kv)
      ensures Found(old(store.kv), Path(fqdn)) && ChildHosts(listing).Err? ==>
                r.Err? && store.kv == old(store.kv)[Path(fqdn) := ""]
      ensures Found(old(store.kv), Path(fqdn)) && ChildHosts(listing).Ok? ==>
                r == Ok(hosts) && SetDone(old(store.kv), store.kv, Path(fqdn), hosts, ChildHosts(listing).value)
      ensures Found(old(store.kv), Path(fqdn)) && ChildHosts(listing).Ok? &&
              HoldsHosts(old(store.kv), Path(fqdn), HostSet(ChildHosts(listing).value)) &&
              (forall h :: h in hosts ==> WellFormedHost(h)) &&
              (forall h :: h in ChildHosts(listing).value ==> WellFormedHost(h)) ==>
                HoldsHosts(store.kv, Path(fqdn), HostSet(hosts))
    {
      r := Set(Path(fqdn), hosts, true, listing);
    }
  }
}

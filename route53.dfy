/**
 * The Route53 backend (backend/route53/route53.go): a hosted zone holds record
 * sets, each a name, a type and a list of values. A domain `<slug>.<zone>` is a
 * wildcard A set `\052.<slug>.<zone>` carrying the domain's hosts, one A set per
 * subdomain label, and TXT sets for ACME challenges.
 *
 *  - filterRecords sorts a listing into exact/wildcard A sets, subdomain A sets
 *    and TXT sets; convertARecords turns the A lists into maps;
 *  - findSlugWithZone, the TXT quoting, convertExpiration;
 *  - Set's slug loop, Update's upserts and stale-record cleanup, and the TXT
 *    operations, over a hosted zone held as a sequence of record sets.
 *
 * The database (frozen slugs, tokens, the "empty." marker row) enters as
 * oracles; the AWS calls are the HostedZone methods and are taken to succeed.
 */
module Route53 {
  import opened GoStrings
  import opened Outcomes

  const TypeA := "A"
  const TypeTXT := "TXT"
  const MaxSlugHashTimes := 100
  const SlugLength := 6
  const TokenLength := 32
  const Route53TTL := 10

  /** Route53's escaped spelling of the wildcard label "*". */
  const Wildcard := "\\052"

  /** A resource record set: name, type and the values of its records. */
  datatype RecordSet = RecordSet(name: string, rtype: string, values: seq<string>)

  datatype Error =
    | QueryFrozen      // the frozen-slug query failed for a reason other than "no rows"
    | GenerateName     // errGenerateName
    | QueryA           // errQueryAFromDatabase
    | ExistRecord      // errExistRecord
    | FilterFailed     // errFilterRecords
    | QueryToken       // errQueryTokenFromDatabase
    | QueryTXT         // errQueryTXTFromDatabase
    | IndexOutOfRange  // a listed record set without records: the code would panic

  /** A record name compared without its trailing dots. */
  function Key(name: string): string {
    TrimRight(name, ".")
  }

  /** The first label of a name, strings.Split(name, ".")[0]. */
  function FirstLabel(name: string): (r: string)
    ensures '.' !in r
  {
    LabelsNoDot(name);
    Labels(name)[0]
  }

  /** A name without trailing dot, so that names below it compare as written. */
  predicate Canonical(fqdn: string) {
    fqdn != "" && fqdn[|fqdn| - 1] != '.'
  }

  /** The key of the name `part.fqdn`. */
  function ChildKey(part: string, fqdn: string): string {
    Key(part + "." + fqdn)
  }

  lemma ChildKeyOfCanonical(part: string, fqdn: string)
    requires Canonical(fqdn)
    ensures ChildKey(part, fqdn) == part + "." + fqdn
  {
    var n := part + "." + fqdn;
    assert n[|n| - 1] == fqdn[|fqdn| - 1];
  }

  /** Below a canonical name, different labels give different keys. */
  lemma ChildKeyInjective(a: string, b: string, fqdn: string)
    requires Canonical(fqdn) && ChildKey(a, fqdn) == ChildKey(b, fqdn)
    ensures a == b
  {
    ChildKeyOfCanonical(a, fqdn);
    ChildKeyOfCanonical(b, fqdn);
    assert |a| == |b|;
    assert a == (a + "." + fqdn)[..|a|];
    assert b == (b + "." + fqdn)[..|b|];
  }

  // ---------------------------------------------------------------------------
  // filterRecords

  /** Type-A sets named fqdn itself or its wildcard. */
  predicate IsApex(rs: RecordSet, fqdn: string) {
    rs.rtype == TypeA && (Key(rs.name) == fqdn || Key(rs.name) == Wildcard + "." + fqdn)
  }

  /** Type-A sets one label deeper than fqdn, containing it, and not a wildcard. */
  predicate IsSub(rs: RecordSet, fqdn: string) {
    var name := Key(rs.name);
    |Labels(name)| - |Labels(fqdn)| == 1 && Contains(name, fqdn) && rs.rtype == TypeA &&
    !Contains(name, Wildcard)
  }

  /** TXT sets named fqdn, both sides compared without trailing dots. */
  predicate IsText(rs: RecordSet, fqdn: string) {
    Key(rs.name) == TrimRight(fqdn, ".") && rs.rtype == TypeTXT
  }

  /** The three lists filterRecords fills. */
  datatype Bucket = Apex | Sub | Text

  predicate InBucket(rs: RecordSet, b: Bucket, fqdn: string) {
    match b
    case Apex => IsApex(rs, fqdn)
    case Sub => IsSub(rs, fqdn)
    case Text => IsText(rs, fqdn)
  }

  /** The sets of a listing that belong in bucket `b`, in listing order. */
  function Select(rrs: seq<RecordSet>, b: Bucket, fqdn: string): (r: seq<RecordSet>)
    ensures |r| <= |rrs|
  {
    if rrs == [] then []
    else
      var last := rrs[|rrs| - 1];
      assert rrs == rrs[..|rrs| - 1] + [last];
      Select(rrs[..|rrs| - 1], b, fqdn) + if InBucket(last, b, fqdn) then [last] else []
  }

  /** A bucket holds exactly the sets of the listing that belong in it. */
  lemma {:induction false} SelectMembers(rrs: seq<RecordSet>, b: Bucket, fqdn: string)
    ensures forall x :: x in Select(rrs, b, fqdn) <==> x in rrs && InBucket(x, b, fqdn)
    decreases |rrs|
  {
    if rrs != [] {
      var init := rrs[..|rrs| - 1];
      SelectMembers(init, b, fqdn);
      assert rrs == init + [rrs[|rrs| - 1]];
    }
  }

  /** Selection keeps the listing order: it distributes over concatenation. */
  lemma {:induction false} SelectConcat(x: seq<RecordSet>, y: seq<RecordSet>, b: Bucket, fqdn: string)
    ensures Select(x + y, b, fqdn) == Select(x, b, fqdn) + Select(y, b, fqdn)
    decreases |y|
  {
    if y == [] {
      assert x + y == x;
    } else {
      var y' := y[..|y| - 1];
      assert (x + y)[..|x + y| - 1] == x + y';
      SelectConcat(x, y', b, fqdn);
    }
  }

  /** Selecting one more set of the listing appends it exactly when it belongs in the bucket. */
  lemma SelectSnoc(rrs: seq<RecordSet>, i: int, b: Bucket, fqdn: string, kept: bool)
    requires 0 <= i < |rrs| && (kept <==> InBucket(rrs[i], b, fqdn))
    ensures Select(rrs[..i + 1], b, fqdn) == Select(rrs[..i], b, fqdn) + if kept then [rrs[i]] else []
  {
    assert rrs[..i + 1][..i] == rrs[..i];
  }

  /** A bucket is empty exactly when no set of the listing belongs in it. */
  lemma SelectEmpty(rrs: seq<RecordSet>, b: Bucket, fqdn: string)
    ensures Select(rrs, b, fqdn) == [] <==> forall x :: x in rrs ==> !InBucket(x, b, fqdn)
  {
    var r := Select(rrs, b, fqdn);
    SelectMembers(rrs, b, fqdn);
    if r != [] {
      assert r[0] in r;
    }
  }

  /** A set named fqdn or its wildcard is never a subdomain set. */
  lemma ApexNotSub(rs: RecordSet, fqdn: string)
    requires IsApex(rs, fqdn)
    ensures !IsSub(rs, fqdn)
  {
    var name := Key(rs.name);
    if name != fqdn {
      assert name[..|Wildcard|] == Wildcard;
      assert Index(name, Wildcard) == 0;
    }
  }

  /** No set lands in both the A list and the subdomain list. */
  lemma ApexAndSubDisjoint(rrs: seq<RecordSet>, fqdn: string)
    ensures forall x :: x in Select(rrs, Apex, fqdn) ==> x !in Select(rrs, Sub, fqdn)
  {
    SelectMembers(rrs, Apex, fqdn);
    SelectMembers(rrs, Sub, fqdn);
    forall x | x in Select(rrs, Apex, fqdn)
      ensures x !in Select(rrs, Sub, fqdn)
    {
      ApexNotSub(x, fqdn);
    }
  }

  /**
   * filterRecords: for A the exact/wildcard sets and the subdomain sets, with
   * `v` telling whether there was an exact/wildcard set; for TXT the sets named
   * fqdn; for any other type nothing.
   */
  method FilterRecords(rrs: seq<RecordSet>, fqdn: string, rtype: string)
    returns (v: bool, a: seq<RecordSet>, s: seq<RecordSet>, t: seq<RecordSet>)
    ensures rtype == TypeA ==>
      a == Select(rrs, Apex, fqdn) && s == Select(rrs, Sub, fqdn) && t == [] && (v <==> a != [])
    ensures rtype == TypeTXT ==>
      a == [] && s == [] && t == Select(rrs, Text, fqdn) && (v <==> t != [])
    ensures rtype != TypeA && rtype != TypeTXT ==> !v && a == [] && s == [] && t == []
  {
    v, a, s, t := false, [], [], [];
    if rtype == TypeA {
      v, a, s := FilterA(rrs, fqdn);
    } else if rtype == TypeTXT {
      v, t := FilterText(rrs, fqdn);
    }
  }

  /** filterRecords' A case: one pass sorting the sets into the exact/wildcard and subdomain buckets. */
  method FilterA(rrs: seq<RecordSet>, fqdn: string) returns (v: bool, a: seq<RecordSet>, s: seq<RecordSet>)
    ensures a == Select(rrs, Apex, fqdn) && s == Select(rrs, Sub, fqdn) && (v <==> a != [])
  {
    v, a, s := false, [], [];
    var i := 0;
    while i < |rrs|
      invariant 0 <= i <= |rrs|
      invariant a == Select(rrs[..i], Apex, fqdn) && s == Select(rrs[..i], Sub, fqdn)
      invariant v <==> a != []
    {
      var rs := rrs[i];
      var apex, sub := ClassifyA(rs, fqdn);
      FilterAStep(rrs, i, fqdn, apex, sub);
      if apex {
        v := true;
        a := a + [rs];
      } else if sub {
        s := s + [rs];
      }
      i := i + 1;
    }
    assert rrs[..|rrs|] == rrs;
  }

  /** One set of the A pass: it joins the exact/wildcard bucket, else possibly the subdomain bucket. */
  lemma FilterAStep(rrs: seq<RecordSet>, i: int, fqdn: string, apex: bool, sub: bool)
    requires 0 <= i < |rrs| && !(apex && sub)
    requires apex <==> IsApex(rrs[i], fqdn)
    requires sub <==> IsSub(rrs[i], fqdn)
    ensures Select(rrs[..i + 1], Apex, fqdn) == Select(rrs[..i], Apex, fqdn) + if apex then [rrs[i]] else []
    ensures Select(rrs[..i + 1], Sub, fqdn) == Select(rrs[..i], Sub, fqdn) + if !apex && sub then [rrs[i]] else []
  {
    SelectSnoc(rrs, i, Apex, fqdn, apex);
    SelectSnoc(rrs, i, Sub, fqdn, sub);
  }

  /** filterRecords' TXT case: the TXT sets named fqdn, trailing dots ignored. */
  method FilterText(rrs: seq<RecordSet>, fqdn: string) returns (v: bool, t: seq<RecordSet>)
    ensures t == Select(rrs, Text, fqdn) && (v <==> t != [])
  {
    v, t := false, [];
    var i := 0;
    while i < |rrs|
      invariant 0 <= i <= |rrs|
      invariant t == Select(rrs[..i], Text, fqdn)
      invariant v <==> t != []
    {
      var rs := rrs[i];
      var name := TrimRight(rs.name, ".");
      var hit := name == TrimRight(fqdn, ".") && rs.rtype == TypeTXT;
      SelectSnoc(rrs, i, Text, fqdn, hit);
      if hit {
        v := true;
        t := t + [rs];
      }
      i := i + 1;
    }
    assert rrs[..|rrs|] == rrs;
  }

  /** The two tests of filterRecords' A case on one set: exact or wildcard name, else subdomain. */
  method ClassifyA(rs: RecordSet, fqdn: string) returns (apex: bool, sub: bool)
    ensures apex <==> IsApex(rs, fqdn)
    ensures sub <==> IsSub(rs, fqdn)
    ensures !(apex && sub)
  {
    var name := TrimRight(rs.name, ".");
    var nss := Split(name, ".");
    var oss := Split(fqdn, ".");
    apex := (name == fqdn || name == Wildcard + "." + fqdn) && rs.rtype == TypeA;
    if apex {
      ApexNotSub(rs, fqdn);
      sub := false;
    } else {
      sub := |nss| - |oss| == 1 && Contains(name, fqdn) && rs.rtype == TypeA && !Contains(name, Wildcard);
    }
  }

  // ---------------------------------------------------------------------------
  // convertARecords

  /** How convertARecords keys a set: the trimmed name, or the first label. */
  datatype KeyBy = ByName | ByFirstLabel

  function RecordKey(rs: RecordSet, keying: KeyBy): string {
    match keying
    case ByName => Key(rs.name)
    case ByFirstLabel => FirstLabel(rs.name)
  }

  /** The map convertARecords builds: each key to the values of its last set. */
  function ValuesBy(rrs: seq<RecordSet>, keying: KeyBy): (m: map<string, seq<string>>)
    ensures m.Keys == set x | x in rrs :: RecordKey(x, keying)
  {
    if rrs == [] then map[]
    else
      var last := rrs[|rrs| - 1];
      assert rrs == rrs[..|rrs| - 1] + [last];
      ValuesBy(rrs[..|rrs| - 1], keying)[RecordKey(last, keying) := last.values]
  }

  /** A key's values are those of the last set with that key, in their order. */
  lemma {:induction false} ValuesByLast(rrs: seq<RecordSet>, keying: KeyBy, i: int)
    requires 0 <= i < |rrs|
    requires forall j :: i < j < |rrs| ==> RecordKey(rrs[j], keying) != RecordKey(rrs[i], keying)
    ensures RecordKey(rrs[i], keying) in ValuesBy(rrs, keying)
    ensures ValuesBy(rrs, keying)[RecordKey(rrs[i], keying)] == rrs[i].values
    decreases |rrs|
  {
    if i < |rrs| - 1 {
      var init := rrs[..|rrs| - 1];
      assert forall j :: i < j < |init| ==> init[j] == rrs[j];
      ValuesByLast(init, keying, i);
    }
  }

  /** convertARecords: A sets keyed by trimmed name, subdomain sets by first label. */
  method ConvertARecords(a: seq<RecordSet>, s: seq<RecordSet>)
    returns (aOutput: map<string, seq<string>>, sOutput: map<string, seq<string>>)
    ensures aOutput == ValuesBy(a, ByName)
    ensures sOutput == ValuesBy(s, ByFirstLabel)
  {
    aOutput := CollectValues(a, ByName);
    sOutput := CollectValues(s, ByFirstLabel);
  }

  /** One loop of convertARecords: each set's values stored under its key, later sets overwriting earlier ones. */
  method CollectValues(rrs: seq<RecordSet>, keying: KeyBy) returns (m: map<string, seq<string>>)
    ensures m == ValuesBy(rrs, keying)
  {
    m := map[];
    var i := 0;
    while i < |rrs|
      invariant 0 <= i <= |rrs|
      invariant m == ValuesBy(rrs[..i], keying)
    {
      assert rrs[..i + 1][..i] == rrs[..i];
      m := m[RecordKey(rrs[i], keying) := rrs[i].values];
      i := i + 1;
    }
    assert rrs[..|rrs|] == rrs;
  }

  // ---------------------------------------------------------------------------
  // findSlugWithZone

  /** findSlugWithZone as written: the second SplitAfterN piece, or the name. */
  function FindSlugWithZone(fqdn: string, zone: string): string {
    var n := |Labels(fqdn)| - |Labels(zone)|;
    var ss := SplitAfterN(fqdn, ".", n);
    if |ss| <= 1 then fqdn else ss[1]
  }

  /** What findSlugWithZone gives for each difference n of label counts. */
  lemma FindSlugWithZoneCases(fqdn: string, zone: string)
    ensures var ls := Labels(fqdn);
      var n := |ls| - |Labels(zone)|;
      var r := FindSlugWithZone(fqdn, zone);
      (0 <= n <= 1 ==> r == fqdn) &&
      (n == 2 ==> r == Join(ls[1..], ".")) &&
      (n >= 3 ==> r == ls[1] + ".") &&
      (n < 0 ==> r == if |ls| == 1 then fqdn else if |ls| == 2 then ls[1] else ls[1] + ".")
  {
    var ls := Labels(fqdn);
    var n := |ls| - |Labels(zone)|;
    LabelsNoDot(zone);
    if n >= 2 || (n < 0 && |ls| >= 2) {
      SplitAfterNSecond(fqdn, n);
      if |ls| == 2 {
        assert ls[1..] == [ls[1]];
      }
    } else if n < 0 {
      LabelCount(fqdn);
      SplitNoSep(fqdn, '.', true, n);
    }
  }

  /** `<slug>.<zone>` is its own slug name. */
  lemma FindSlugOfDomain(slug: string, zone: string)
    requires '.' !in slug
    ensures FindSlugWithZone(slug + "." + zone, zone) == slug + "." + zone
  {
    LabelsConcat(slug, zone);
    LabelsOfLabel(slug);
    FindSlugWithZoneCases(slug + "." + zone, zone);
  }

  /** `_acme-challenge.<slug>.<zone>` has the slug name `<slug>.<zone>`. */
  lemma FindSlugOfChallenge(challenge: string, slug: string, zone: string)
    requires '.' !in challenge && '.' !in slug
    ensures FindSlugWithZone(challenge + "." + slug + "." + zone, zone) == slug + "." + zone
  {
    var rest := slug + "." + zone;
    var fqdn := challenge + "." + rest;
    assert challenge + "." + slug + "." + zone == fqdn;
    LabelsInFront(slug, zone);
    LabelsInFront(challenge, rest);
    FindSlugWithZoneCases(fqdn, zone);
    var ls := Labels(fqdn);
    assert ls[1..] == Labels(rest);
    JoinLabels(rest);
  }

  /**
   * With three labels in front of the slug, the code returns the second label
   * with its dot rather than the slug name.
   */
  lemma FindSlugThreeDeep(x: string, y: string, slug: string, zone: string)
    requires '.' !in x && '.' !in y && '.' !in slug
    ensures FindSlugWithZone(x + "." + y + "." + slug + "." + zone, zone) == y + "."
  {
    var r2 := slug + "." + zone;
    var r1 := y + "." + r2;
    var fqdn := x + "." + r1;
    assert x + "." + y + "." + slug + "." + zone == fqdn;
    LabelsInFront(slug, zone);
    LabelsInFront(y, r2);
    LabelsInFront(x, r1);
    FindSlugWithZoneCases(fqdn, zone);
  }

  /** The example of findSlugWithZone's comment, as the code computes it. */
  lemma FindSlugWithZoneDocExample(fqdn: string, zone: string)
    requires fqdn == "yyyy.xxxx.qrn7oq.lb.rancher.cloud" && zone == "lb.rancher.cloud"
    ensures FindSlugWithZone(fqdn, zone) == "xxxx."
  {
    DocExampleName(fqdn, zone);
    FindSlugThreeDeep("yyyy", "xxxx", "qrn7oq", zone);
  }

  /**
   * The slug name the comment describes: the label left of the zone followed
   * by the zone, i.e. the last (zone labels + 1) labels of the name.
   */
  function SlugWithZone(fqdn: string, zone: string): (r: string)
    ensures var ls := Labels(fqdn); var n := |ls| - |Labels(zone)|;
      (n <= 1 ==> r == fqdn) && (n >= 2 ==> Labels(r) == ls[n - 1..])
  {
    var ls := Labels(fqdn);
    var n := |ls| - |Labels(zone)|;
    if n <= 1 then fqdn
    else
      LabelsNoDot(fqdn);
      LabelsOfJoin(ls[n - 1..]);
      Join(ls[n - 1..], ".")
  }

  /** Where at most one label precedes the slug, the code already does this. */
  lemma SlugWithZoneAgrees(fqdn: string, zone: string)
    requires 0 <= |Labels(fqdn)| - |Labels(zone)| <= 2
    ensures SlugWithZone(fqdn, zone) == FindSlugWithZone(fqdn, zone)
  {
    FindSlugWithZoneCases(fqdn, zone);
  }

  /** However deep the name, the slug name is `<slug>.<zone>`. */
  lemma SlugWithZoneThreeDeep(x: string, y: string, slug: string, zone: string, fqdn: string)
    requires '.' !in x && '.' !in y && '.' !in slug
    requires fqdn == x + "." + y + "." + slug + "." + zone
    ensures SlugWithZone(fqdn, zone) == slug + "." + zone
  {
    var r2 := slug + "." + zone;
    var r1 := y + "." + r2;
    var ls := Labels(fqdn);
    assert |Labels(r2)| == |Labels(zone)| + 1 && ls == [x, y] + Labels(r2) by {
      assert fqdn == x + "." + r1;
      LabelsInFront(slug, zone);
      LabelsInFront(y, r2);
      LabelsInFront(x, r1);
    }
    assert ls[2..] == Labels(r2);
    JoinLabels(r2);
  }

  /** The comment's example under the intended reading. */
  lemma SlugWithZoneDocExample(fqdn: string, zone: string)
    requires fqdn == "yyyy.xxxx.qrn7oq.lb.rancher.cloud" && zone == "lb.rancher.cloud"
    ensures SlugWithZone(fqdn, zone) == "qrn7oq.lb.rancher.cloud"
  {
    DocExampleName(fqdn, zone);
    SlugWithZoneThreeDeep("yyyy", "xxxx", "qrn7oq", zone, fqdn);
  }

  lemma DocExampleName(fqdn: string, zone: string)
    requires fqdn == "yyyy.xxxx.qrn7oq.lb.rancher.cloud" && zone == "lb.rancher.cloud"
    ensures fqdn == "yyyy" + "." + "xxxx" + "." + "qrn7oq" + "." + zone
    ensures "qrn7oq" + "." + zone == "qrn7oq.lb.rancher.cloud"
  {
    DocExampleSlugName(zone);
    assert fqdn == "yyyy.xxxx." + "qrn7oq.lb.rancher.cloud";
  }

  lemma DocExampleSlugName(zone: string)
    requires zone == "lb.rancher.cloud"
    ensures "qrn7oq" + "." + zone == "qrn7oq.lb.rancher.cloud"
  {
  }

  // ---------------------------------------------------------------------------
  // TXT quoting and expiration

  /** SetText/UpdateText store the text between double quotes. */
  function Quote(text: string): string {
    "\"" + text + "\""
  }

  /** GetText strips every leading and trailing double quote. */
  function Unquote(value: string): (r: string)
    ensures |r| <= |value|
    ensures r != "" ==> r[0] != '"' && r[|r| - 1] != '"'
  {
    TrimLeftShape(value, "\"");
    TrimRightShape(TrimLeft(value, "\""), "\"");
    Trim(value, "\"")
  }

  /** A text comes back from its quoted form exactly when it has no quote at either end. */
  lemma QuoteRoundTrip(text: string)
    ensures Unquote(Quote(text)) == text <==> text == "" || (text[0] != '"' && text[|text| - 1] != '"')
  {
    var q := Quote(text);
    if text == "" || (text[0] != '"' && text[|text| - 1] != '"') {
      assert q[1..] == text + "\"";
      assert TrimLeft(q, "\"") == TrimLeft(text + "\"", "\"");
      if text == "" {
        assert TrimLeft("\"", "\"") == TrimLeft("", "\"");
      } else {
        assert TrimLeft(text + "\"", "\"") == text + "\"";
        assert (text + "\"")[..|text|] == text;
        assert TrimRight(text + "\"", "\"") == TrimRight(text, "\"");
        assert TrimRight(text, "\"") == text;
      }
    }
  }

  /** convertExpiration: the creation time plus the TTL, both in nanoseconds. */
  function ConvertExpiration(create: int, ttl: int): (r: int)
    ensures r >= create <==> ttl >= 0
    ensures r - create == ttl
  {
    create + ttl
  }

  // ---------------------------------------------------------------------------
  // The hosted zone

  /** The set a change to (key, type) replaces or removes. */
  predicate Matches(rs: RecordSet, key: string, rtype: string) {
    Key(rs.name) == key && rs.rtype == rtype
  }

  /** The zone's sets except those for (key, type). */
  function Without(sets: seq<RecordSet>, key: string, rtype: string): (r: seq<RecordSet>)
    ensures forall x :: x in r <==> x in sets && !Matches(x, key, rtype)
  {
    if sets == [] then []
    else (if Matches(sets[0], key, rtype) then [] else [sets[0]]) + Without(sets[1..], key, rtype)
  }

  /** The values Route53 serves for (key, type): those of the first matching set. */
  function Lookup(sets: seq<RecordSet>, key: string, rtype: string): (r: Option<seq<string>>)
    ensures r.None? <==> forall x :: x in sets ==> !Matches(x, key, rtype)
    ensures r.Some? ==> exists x :: x in sets && Matches(x, key, rtype) && x.values == r.value
  {
    if sets == [] then None
    else if Matches(sets[0], key, rtype) then Some(sets[0].values)
    else Lookup(sets[1..], key, rtype)
  }

  lemma {:induction false} LookupWithout(sets: seq<RecordSet>, key: string, rtype: string, key': string, rtype': string)
    ensures Lookup(Without(sets, key, rtype), key', rtype') ==
      if key' == key && rtype' == rtype then None else Lookup(sets, key', rtype')
    decreases |sets|
  {
    if sets != [] {
      var rest := Without(sets[1..], key, rtype);
      LookupWithout(sets[1..], key, rtype, key', rtype');
      if Matches(sets[0], key, rtype) {
        assert Without(sets, key, rtype) == rest;
      } else {
        assert Without(sets, key, rtype) == [sets[0]] + rest;
        assert ([sets[0]] + rest)[1..] == rest;
      }
    }
  }

  lemma {:induction false} LookupAppend(sets: seq<RecordSet>, x: RecordSet, key: string, rtype: string)
    ensures Lookup(sets + [x], key, rtype) ==
      if Lookup(sets, key, rtype).Some? then Lookup(sets, key, rtype)
      else if Matches(x, key, rtype) then Some(x.values) else None
    decreases |sets|
  {
    if sets != [] {
      assert (sets + [x])[1..] == sets[1..] + [x];
      LookupAppend(sets[1..], x, key, rtype);
    }
  }

  /** The record sets of one hosted zone, as ListResourceRecordSets returns them. */
  class HostedZone {
    var sets: seq<RecordSet>

    constructor (sets: seq<RecordSet>)
      ensures this.sets == sets
    {
      this.sets := sets;
    }

    /** An UPSERT change: the set for (name, type) now holds `values`. */
    method Upsert(name: string, rtype: string, values: seq<string>)
      modifies this
      ensures sets == Without(old(sets), Key(name), rtype) + [RecordSet(Key(name) + ".", rtype, values)]
      ensures forall key, t ::
                Lookup(sets, key, t) == if key == Key(name) && t == rtype then Some(values) else Lookup(old(sets), key, t)
    {
      var rs := RecordSet(Key(name) + ".", rtype, values);
      TrimRightDot(Key(name));
      TrimRightIdempotent(name, ".");
      assert Key(rs.name) == Key(name);
      forall key, t
        ensures Lookup(Without(sets, Key(name), rtype) + [rs], key, t) ==
          if key == Key(name) && t == rtype then Some(values) else Lookup(sets, key, t)
      {
        LookupAppend(Without(sets, Key(name), rtype), rs, key, t);
        LookupWithout(sets, Key(name), rtype, key, t);
      }
      sets := Without(sets, Key(name), rtype) + [rs];
    }

    /** A DELETE change: the zone no longer has a set for (name, type). */
    method Delete(name: string, rtype: string)
      modifies this
      ensures sets == Without(old(sets), Key(name), rtype)
      ensures forall key, t ::
                Lookup(sets, key, t) == if key == Key(name) && t == rtype then None else Lookup(old(sets), key, t)
    {
      forall key, t
        ensures Lookup(Without(sets, Key(name), rtype), key, t) ==
          if key == Key(name) && t == rtype then None else Lookup(sets, key, t)
      {
        LookupWithout(sets, Key(name), rtype, key, t);
      }
      sets := Without(sets, Key(name), rtype);
    }
  }

  /** Removing (key, type) from a zone that has no such set changes nothing. */
  lemma {:induction false} WithoutNothing(sets: seq<RecordSet>, key: string, rtype: string)
    requires forall x :: x in sets ==> !Matches(x, key, rtype)
    ensures Without(sets, key, rtype) == sets
    decreases |sets|
  {
    if sets != [] {
      WithoutNothing(sets[1..], key, rtype);
    }
  }

  /** The key of a stored name (trimmed, one dot added) is the key it was stored under. */
  lemma StoredKey(name: string)
    ensures Key(Key(name) + ".") == Key(name)
  {
    TrimRightDot(Key(name));
    TrimRightIdempotent(name, ".");
  }

  /** After an upsert of fqdn's TXT set, that set is the only TXT set named fqdn. */
  lemma TextAfterUpsert(sets: seq<RecordSet>, fqdn: string, values: seq<string>)
    ensures Select(Without(sets, Key(fqdn), TypeTXT) + [RecordSet(Key(fqdn) + ".", TypeTXT, values)], Text, fqdn)
      == [RecordSet(Key(fqdn) + ".", TypeTXT, values)]
  {
    var rs := RecordSet(Key(fqdn) + ".", TypeTXT, values);
    var w := Without(sets, Key(fqdn), TypeTXT);
    SelectConcat(w, [rs], Text, fqdn);
    SelectEmpty(w, Text, fqdn);
    StoredKey(fqdn);
    assert [rs][..0] == [];
  }

  // ---------------------------------------------------------------------------
  // Keys Set and Update touch

  /** A first label equal to the wildcard label puts the wildcard into the trimmed name. */
  lemma WildcardLabelContained(name: string)
    requires FirstLabel(name) == Wildcard
    ensures Contains(Key(name), Wildcard)
  {
    if '.' in name {
      SplitFirst(name, '.', false, -1);
    } else {
      SplitNoSep(name, '.', false, -1);
    }
    assert |name| >= 4 && name[..4] == Wildcard;
    TrimRightShape(name, ".");
    var r := Key(name);
    assert name[3] == '2';
    assert |r| >= 4;
    assert r[..4] == Wildcard;
    assert Index(r, Wildcard) == 0;
  }

  /** A subdomain set's first label is never the wildcard label. */
  lemma SubLabelNotWildcard(rs: RecordSet, fqdn: string)
    requires IsSub(rs, fqdn)
    ensures FirstLabel(rs.name) != Wildcard
  {
    if FirstLabel(rs.name) == Wildcard {
      WildcardLabelContained(rs.name);
    }
  }

  /** The labels of a listing's subdomain sets: the keys of convertARecords' second map. */
  function SubLabels(sets: seq<RecordSet>, fqdn: string): set<string> {
    set x | x in sets && IsSub(x, fqdn) :: FirstLabel(x.name)
  }

  lemma SubLabelsOfSelect(sets: seq<RecordSet>, fqdn: string)
    ensures ValuesBy(Select(sets, Sub, fqdn), ByFirstLabel).Keys == SubLabels(sets, fqdn)
  {
    var s := Select(sets, Sub, fqdn);
    SelectMembers(sets, Sub, fqdn);
    forall k | k in SubLabels(sets, fqdn)
      ensures k in ValuesBy(s, ByFirstLabel).Keys
    {
      var x :| x in sets && IsSub(x, fqdn) && FirstLabel(x.name) == k;
      assert x in s && RecordKey(x, ByFirstLabel) == k;
    }
  }

  /** The keys the upserts for the labels in `done` write (non-empty ones only). */
  function UpsertKeys(fqdn: string, hosts: seq<string>, sub: map<string, seq<string>>, done: set<string>): set<string> {
    (if |hosts| > 0 then {ChildKey(Wildcard, fqdn)} else {}) +
    set k | k in done && k in sub && |sub[k]| > 0 :: ChildKey(k, fqdn)
  }

  /** The keys of listed subdomain labels that the request no longer has. */
  function StaleKeys(fqdn: string, labels: set<string>, sub: map<string, seq<string>>): set<string> {
    set k | k in labels && k !in sub :: ChildKey(k, fqdn)
  }

  /** Every lookup answers as in `sets0`, except type-A lookups of `keys`. */
  ghost predicate UnchangedOutside(sets: seq<RecordSet>, sets0: seq<RecordSet>, keys: set<string>) {
    forall key, t :: t != TypeA || key !in keys ==> Lookup(sets, key, t) == Lookup(sets0, key, t)
  }

  /** The wildcard holds the hosts, unless a label written after it took its key. */
  ghost predicate WildcardHeld(sets: seq<RecordSet>, fqdn: string, hosts: seq<string>, done: set<string>) {
    Canonical(fqdn) && |hosts| > 0 && Wildcard !in done ==>
      Lookup(sets, ChildKey(Wildcard, fqdn), TypeA) == Some(hosts)
  }

  /** Every written label with values holds them. */
  ghost predicate SubsHeld(sets: seq<RecordSet>, fqdn: string, sub: map<string, seq<string>>, done: set<string>) {
    Canonical(fqdn) ==> forall k :: k in done && k in sub && |sub[k]| > 0 ==>
      Lookup(sets, ChildKey(k, fqdn), TypeA) == Some(sub[k])
  }

  /** The lookups after setRecord(name, A, values) on `before`. */
  ghost predicate SetRecordDone(after: seq<RecordSet>, before: seq<RecordSet>, key0: string, values: seq<string>) {
    forall key, t :: Lookup(after, key, t) ==
      if |values| >= 1 && key == key0 && t == TypeA then Some(values) else Lookup(before, key, t)
  }

  /** One subdomain upsert keeps the upsert loop's invariants. */
  lemma UpsertStep(before: seq<RecordSet>, after: seq<RecordSet>, sets0: seq<RecordSet>, fqdn: string,
                   hosts: seq<string>, sub: map<string, seq<string>>, done: set<string>, k: string)
    requires k in sub && k !in done
    requires SetRecordDone(after, before, ChildKey(k, fqdn), sub[k])
    requires WildcardHeld(before, fqdn, hosts, done) && SubsHeld(before, fqdn, sub, done)
    requires UnchangedOutside(before, sets0, UpsertKeys(fqdn, hosts, sub, done))
    ensures WildcardHeld(after, fqdn, hosts, done + {k}) && SubsHeld(after, fqdn, sub, done + {k})
    ensures UnchangedOutside(after, sets0, UpsertKeys(fqdn, hosts, sub, done + {k}))
  {
    if Canonical(fqdn) {
      forall k' | k' in done && k' != k
        ensures ChildKey(k', fqdn) != ChildKey(k, fqdn)
      {
        if ChildKey(k', fqdn) == ChildKey(k, fqdn) {
          ChildKeyInjective(k', k, fqdn);
        }
      }
      if k != Wildcard && ChildKey(Wildcard, fqdn) == ChildKey(k, fqdn) {
        ChildKeyInjective(Wildcard, k, fqdn);
      }
    }
    assert UpsertKeys(fqdn, hosts, sub, done) <= UpsertKeys(fqdn, hosts, sub, done + {k});
  }

  /** Taking one more label out of the to-do set adds it to the done set. */
  lemma DoneGrows(all: set<string>, todo: set<string>, k: string)
    requires k in todo && todo <= all
    ensures all - (todo - {k}) == (all - todo) + {k}
  {
  }

  /** The lookups after Update's three phases, as its contract states them. */
  lemma {:induction false} UpdateEffects(sets0: seq<RecordSet>, sets1: seq<RecordSet>, sets2: seq<RecordSet>,
                                         sets3: seq<RecordSet>, fqdn: string, hosts: seq<string>,
                                         sub: map<string, seq<string>>, listed: bool)
    requires WildcardHeld(sets1, fqdn, hosts, sub.Keys) && SubsHeld(sets1, fqdn, sub, sub.Keys)
    requires UnchangedOutside(sets1, sets0, UpsertKeys(fqdn, hosts, sub, sub.Keys))
    requires forall key, t ::
               Lookup(sets2, key, t) ==
                 if |hosts| == 0 && listed && key == ChildKey(Wildcard, fqdn) && t == TypeA then None
                 else Lookup(sets1, key, t)
    requires forall key :: key in StaleKeys(fqdn, SubLabels(sets0, fqdn), sub) ==> Lookup(sets3, key, TypeA) == None
    requires UnchangedOutside(sets3, sets2, StaleKeys(fqdn, SubLabels(sets0, fqdn), sub))
    ensures Canonical(fqdn) && |hosts| > 0 && Wildcard !in sub ==>
      Lookup(sets3, ChildKey(Wildcard, fqdn), TypeA) == Some(hosts)
    ensures |hosts| == 0 && listed ==> Lookup(sets3, ChildKey(Wildcard, fqdn), TypeA) == None
    ensures Canonical(fqdn) ==> forall k :: k in sub && |sub[k]| > 0 && k != Wildcard ==>
      Lookup(sets3, ChildKey(k, fqdn), TypeA) == Some(sub[k])
    ensures forall k :: k in SubLabels(sets0, fqdn) && k !in sub ==> Lookup(sets3, ChildKey(k, fqdn), TypeA) == None
    ensures UnchangedOutside(sets3, sets0,
      UpsertKeys(fqdn, hosts, sub, sub.Keys) + {ChildKey(Wildcard, fqdn)} + StaleKeys(fqdn, SubLabels(sets0, fqdn), sub))
  {
    var stale := StaleKeys(fqdn, SubLabels(sets0, fqdn), sub);
    if Canonical(fqdn) {
      WildcardNotStale(sets0, fqdn, sub);
      forall k | k in sub && |sub[k]| > 0 && k != Wildcard
        ensures ChildKey(k, fqdn) != ChildKey(Wildcard, fqdn)
        ensures ChildKey(k, fqdn) !in stale
      {
        if ChildKey(k, fqdn) == ChildKey(Wildcard, fqdn) {
          ChildKeyInjective(k, Wildcard, fqdn);
        }
        if ChildKey(k, fqdn) in stale {
          var k' :| k' in SubLabels(sets0, fqdn) && k' !in sub && ChildKey(k', fqdn) == ChildKey(k, fqdn);
          ChildKeyInjective(k', k, fqdn);
        }
      }
    }
    forall k | k in SubLabels(sets0, fqdn) && k !in sub
      ensures ChildKey(k, fqdn) in stale
    {
    }
  }

  /** Below a canonical name, no stale subdomain key is the wildcard's key. */
  lemma WildcardNotStale(sets: seq<RecordSet>, fqdn: string, sub: map<string, seq<string>>)
    requires Canonical(fqdn)
    ensures ChildKey(Wildcard, fqdn) !in StaleKeys(fqdn, SubLabels(sets, fqdn), sub)
  {
    if ChildKey(Wildcard, fqdn) in StaleKeys(fqdn, SubLabels(sets, fqdn), sub) {
      var k :| k in SubLabels(sets, fqdn) && k !in sub && ChildKey(k, fqdn) == ChildKey(Wildcard, fqdn);
      ChildKeyInjective(k, Wildcard, fqdn);
      var x :| x in sets && IsSub(x, fqdn) && FirstLabel(x.name) == k;
      SubLabelNotWildcard(x, fqdn);
    }
  }

  /** Outcome of the frozen-slug query for one candidate. */
  datatype FrozenRow = Row(value: string) | NoRows | QueryFailed

  /** What one round of Set's loop does with its candidate. */
  datatype Probe = Skip | Adopt | Abort

  class Backend {
    const zone: string
    const hosted: HostedZone

    constructor (zone: string, hosted: HostedZone)
      ensures this.zone == zone && this.hosted == hosted
    {
      this.zone := zone;
      this.hosted := hosted;
    }

    /** The name of the i-th drawn slug. */
    function Candidate(draw: nat -> string, i: nat): string {
      draw(i) + "." + zone
    }

    /**
     * A round aborts when the frozen query fails, skips a slug with a non-empty
     * frozen row or a name Get finds, and adopts the name otherwise.
     */
    function ProbeOf(draw: nat -> string, frozen: string -> FrozenRow, taken: string -> bool, i: nat): Probe {
      var fqdn := Candidate(draw, i);
      var row := frozen(FirstLabel(fqdn));
      if row.QueryFailed? then Abort
      else if row.Row? && row.value != "" then Skip
      else if taken(fqdn) then Skip
      else Adopt
    }

    /**
     * The outcome of Set's loop: the first of the 100 rounds that does not skip
     * decides it; when all skip, the requested name is kept, and an empty one
     * is errGenerateName.
     */
    predicate Allocated(draw: nat -> string, frozen: string -> FrozenRow, taken: string -> bool,
                        requested: string, r: Result<string, Error>)
    {
      (forall k: nat ::
        (k < MaxSlugHashTimes && ProbeOf(draw, frozen, taken, k) != Skip &&
         forall j: nat :: j < k ==> ProbeOf(draw, frozen, taken, j) == Skip) ==>
        r == if ProbeOf(draw, frozen, taken, k) == Abort then Err(QueryFrozen) else Ok(Candidate(draw, k))) &&
      ((forall j: nat :: j < MaxSlugHashTimes ==> ProbeOf(draw, frozen, taken, j) == Skip) ==>
        r == if requested == "" then Err(GenerateName) else Ok(requested))
    }

    /** A round that does not skip, after rounds that all skip, decides the outcome. */
    lemma FirstDecides(draw: nat -> string, frozen: string -> FrozenRow, taken: string -> bool,
                       requested: string, i: nat, r: Result<string, Error>)
      requires i < MaxSlugHashTimes && ProbeOf(draw, frozen, taken, i) != Skip
      requires forall j: nat :: j < i ==> ProbeOf(draw, frozen, taken, j) == Skip
      requires r == if ProbeOf(draw, frozen, taken, i) == Abort then Err(QueryFrozen) else Ok(Candidate(draw, i))
      ensures Allocated(draw, frozen, taken, requested, r)
    {
      forall k: nat | k < MaxSlugHashTimes && ProbeOf(draw, frozen, taken, k) != Skip &&
                      forall j: nat :: j < k ==> ProbeOf(draw, frozen, taken, j) == Skip
        ensures k == i
      {
      }
    }

    /** When every round skips, the requested name decides the outcome. */
    lemma AllSkip(draw: nat -> string, frozen: string -> FrozenRow, taken: string -> bool,
                  requested: string, r: Result<string, Error>)
      requires forall j: nat :: j < MaxSlugHashTimes ==> ProbeOf(draw, frozen, taken, j) == Skip
      requires r == if requested == "" then Err(GenerateName) else Ok(requested)
      ensures Allocated(draw, frozen, taken, requested, r)
    {
    }

    /** Set's slug loop. */
    method AllocateName(draw: nat -> string, frozen: string -> FrozenRow, taken: string -> bool, requested: string)
      returns (r: Result<string, Error>)
      ensures Allocated(draw, frozen, taken, requested, r)
    {
      var i := 0;
      while i < MaxSlugHashTimes
        invariant 0 <= i <= MaxSlugHashTimes
        invariant forall j: nat :: j < i ==> ProbeOf(draw, frozen, taken, j) == Skip
      {
        var fqdn := draw(i) + "." + zone;
        var row := frozen(Split(fqdn, ".")[0]);
        assert fqdn == Candidate(draw, i) && row == frozen(FirstLabel(fqdn));
        if row.QueryFailed? {
          r := Err(QueryFrozen);
          FirstDecides(draw, frozen, taken, requested, i, r);
          return;
        }
        if row.Row? && row.value != "" {
          assert ProbeOf(draw, frozen, taken, i) == Skip;
          i := i + 1;
          continue;
        }
        if !taken(fqdn) {
          r := Ok(fqdn);
          FirstDecides(draw, frozen, taken, requested, i, r);
          return;
        }
        assert ProbeOf(draw, frozen, taken, i) == Skip;
        i := i + 1;
      }
      r := if requested == "" then Err(GenerateName) else Ok(requested);
      AllSkip(draw, frozen, taken, requested, r);
    }

    /** setRecord: an UPSERT when there is at least one value, nothing otherwise. */
    method SetRecord(name: string, rtype: string, values: seq<string>)
      modifies hosted
      ensures |values| >= 1 ==>
        hosted.sets == Without(old(hosted.sets), Key(name), rtype) + [RecordSet(Key(name) + ".", rtype, values)]
      ensures |values| == 0 ==> hosted.sets == old(hosted.sets)
      ensures forall key, t ::
                Lookup(hosted.sets, key, t) ==
                  if |values| >= 1 && key == Key(name) && t == rtype then Some(values)
                  else Lookup(old(hosted.sets), key, t)
    {
      if |values| >= 1 {
        hosted.Upsert(name, rtype, values);
      }
    }

    /** The wildcard upsert and the subdomain upserts shared by Set and Update. */
    method UpsertRecords(fqdn: string, hosts: seq<string>, sub: map<string, seq<string>>)
      modifies hosted
      ensures WildcardHeld(hosted.sets, fqdn, hosts, sub.Keys)
      ensures SubsHeld(hosted.sets, fqdn, sub, sub.Keys)
      ensures UnchangedOutside(hosted.sets, old(hosted.sets), UpsertKeys(fqdn, hosts, sub, sub.Keys))
    {
      ghost var sets0 := hosted.sets;
      SetRecord(Wildcard + "." + fqdn, TypeA, hosts);
      var todo := sub.Keys;
      while todo != {}
        invariant todo <= sub.Keys
        invariant WildcardHeld(hosted.sets, fqdn, hosts, sub.Keys - todo)
        invariant SubsHeld(hosted.sets, fqdn, sub, sub.Keys - todo)
        invariant UnchangedOutside(hosted.sets, sets0, UpsertKeys(fqdn, hosts, sub, sub.Keys - todo))
        decreases |todo|
      {
        var k :| k in todo;
        ghost var before := hosted.sets;
        SetRecord(k + "." + fqdn, TypeA, sub[k]);
        UpsertStep(before, hosted.sets, sets0, fqdn, hosts, sub, sub.Keys - todo, k);
        DoneGrows(sub.Keys, todo, k);
        todo := todo - {k};
      }
    }

    /** Update's last loop: delete the subdomain sets of labels the request dropped. */
    method DeleteStale(fqdn: string, cs: map<string, seq<string>>, sub: map<string, seq<string>>)
      modifies hosted
      ensures forall key :: key in StaleKeys(fqdn, cs.Keys, sub) ==> Lookup(hosted.sets, key, TypeA) == None
      ensures UnchangedOutside(hosted.sets, old(hosted.sets), StaleKeys(fqdn, cs.Keys, sub))
    {
      ghost var sets0 := hosted.sets;
      var todo := cs.Keys;
      while todo != {}
        invariant todo <= cs.Keys
        invariant forall key :: key in StaleKeys(fqdn, cs.Keys - todo, sub) ==> Lookup(hosted.sets, key, TypeA) == None
        invariant UnchangedOutside(hosted.sets, sets0, StaleKeys(fqdn, cs.Keys - todo, sub))
        decreases |todo|
      {
        var k :| k in todo;
        if k !in sub {
          hosted.Delete(k + "." + fqdn, TypeA);
        }
        assert StaleKeys(fqdn, cs.Keys - (todo - {k}), sub) ==
          StaleKeys(fqdn, cs.Keys - todo, sub) + (if k !in sub then {ChildKey(k, fqdn)} else {});
        todo := todo - {k};
      }
    }

    /**
     * Update: upsert the wildcard and the requested subdomains, delete the
     * wildcard when the new host list is empty and one was listed, and delete
     * the listed subdomain sets whose label the request dropped.
     */
    method Update(fqdn: string, hosts: seq<string>, sub: map<string, seq<string>>, hasEmpty: bool)
      returns (r: Result<(), Error>)
      modifies hosted
      ensures r.Ok? <==> hasEmpty
      ensures !hasEmpty ==> hosted.sets == old(hosted.sets)
      ensures hasEmpty && Canonical(fqdn) && |hosts| > 0 && Wildcard !in sub ==>
        Lookup(hosted.sets, ChildKey(Wildcard, fqdn), TypeA) == Some(hosts)
      ensures (hasEmpty && |hosts| == 0 &&
               exists x :: x in old(hosted.sets) && IsApex(x, fqdn) && Key(x.name) == Wildcard + "." + fqdn)
          ==> Lookup(hosted.sets, ChildKey(Wildcard, fqdn), TypeA) == None
      ensures hasEmpty && Canonical(fqdn) ==> forall k :: k in sub && |sub[k]| > 0 && k != Wildcard ==>
        Lookup(hosted.sets, ChildKey(k, fqdn), TypeA) == Some(sub[k])
      ensures hasEmpty ==> forall k :: k in SubLabels(old(hosted.sets), fqdn) && k !in sub ==>
        Lookup(hosted.sets, ChildKey(k, fqdn), TypeA) == None
      ensures hasEmpty ==> UnchangedOutside(hosted.sets, old(hosted.sets),
        UpsertKeys(fqdn, hosts, sub, sub.Keys) + {ChildKey(Wildcard, fqdn)} +
        StaleKeys(fqdn, SubLabels(old(hosted.sets), fqdn), sub))
    {
      var v, a, s, t := FilterRecords(hosted.sets, fqdn, TypeA);
      var aRecords, cs := ConvertARecords(a, s);
      if !hasEmpty {
        return Err(QueryA);
      }
      ghost var sets0 := hosted.sets;
      SubLabelsOfSelect(sets0, fqdn);
      UpsertRecords(fqdn, hosts, sub);
      ghost var sets1 := hosted.sets;
      var w := Wildcard + "." + fqdn;
      ghost var listed := exists x :: x in sets0 && IsApex(x, fqdn) && Key(x.name) == w;
      SelectMembers(sets0, Apex, fqdn);
      assert listed <==> w in aRecords by {
        if listed {
          var x :| x in sets0 && IsApex(x, fqdn) && Key(x.name) == w;
          assert x in a && RecordKey(x, ByName) == w;
        }
        if w in aRecords {
          var x :| x in a && RecordKey(x, ByName) == w;
          assert x in sets0 && IsApex(x, fqdn);
        }
      }
      if |hosts| <= 0 && w in aRecords {
        hosted.Delete(w, TypeA);
      }
      ghost var sets2 := hosted.sets;
      assert forall key, t ::
               Lookup(sets2, key, t) ==
                 if |hosts| == 0 && listed && key == ChildKey(Wildcard, fqdn) && t == TypeA then None
                 else Lookup(sets1, key, t);
      DeleteStale(fqdn, cs, sub);
      assert cs.Keys == SubLabels(sets0, fqdn);
      UpdateEffects(sets0, sets1, sets2, hosted.sets, fqdn, hosts, sub, listed);
      r := Ok(());
    }

    /**
     * Set: allocate a name, then upsert its wildcard set with the hosts and one
     * set per subdomain label.
     */
    method Set(draw: nat -> string, frozen: string -> FrozenRow, taken: string -> bool, requested: string,
               hosts: seq<string>, sub: map<string, seq<string>>)
      returns (r: Result<string, Error>)
      modifies hosted
      ensures Allocated(draw, frozen, taken, requested, r)
      ensures r.Err? ==> hosted.sets == old(hosted.sets)
      ensures r.Ok? ==> WildcardHeld(hosted.sets, r.value, hosts, sub.Keys)
      ensures r.Ok? ==> SubsHeld(hosted.sets, r.value, sub, sub.Keys)
      ensures r.Ok? ==> UnchangedOutside(hosted.sets, old(hosted.sets), UpsertKeys(r.value, hosts, sub, sub.Keys))
    {
      r := AllocateName(draw, frozen, taken, requested);
      if r.Ok? {
        UpsertRecords(r.value, hosts, sub);
      }
    }

    // -------------------------------------------------------------------------
    // TXT records

    /** GetText: the first TXT set named fqdn, its first value unquoted. */
    method GetText(fqdn: string, hasToken: string -> bool) returns (r: Result<string, Error>)
      ensures r == ReadText(hosted.sets, fqdn, hasToken(SlugWithZone(fqdn, zone)))
    {
      var valid, a, s, t := FilterRecords(hosted.sets, fqdn, TypeTXT);
      if !valid || |t| < 1 {
        return Err(FilterFailed);
      }
      if !hasToken(SlugWithZone(fqdn, zone)) {
        return Err(QueryToken);
      }
      if |t[0].values| == 0 {
        return Err(IndexOutOfRange);
      }
      return Ok(Trim(t[0].values[0], "\""));
    }

    /** SetText: refuse an existing TXT set, check the slug's token, store the quoted text, read it back. */
    method SetText(fqdn: string, text: string, hasToken: string -> bool) returns (r: Result<string, Error>)
      modifies hosted
      ensures old(Select(hosted.sets, Text, fqdn)) != [] ==>
        r == Err(ExistRecord) && hosted.sets == old(hosted.sets)
      ensures old(Select(hosted.sets, Text, fqdn)) == [] && !hasToken(SlugWithZone(fqdn, zone)) ==>
        r == Err(QueryToken) && hosted.sets == old(hosted.sets)
      ensures old(Select(hosted.sets, Text, fqdn)) == [] && hasToken(SlugWithZone(fqdn, zone)) ==>
        hosted.sets == old(hosted.sets) + [RecordSet(Key(fqdn) + ".", TypeTXT, [Quote(text)])] &&
        r == Ok(Unquote(Quote(text))) &&
        (text == "" || (text[0] != '"' && text[|text| - 1] != '"') ==> r == Ok(text))
    {
      var valid, a, s, t := FilterRecords(hosted.sets, fqdn, TypeTXT);
      if valid {
        return Err(ExistRecord);
      }
      if !hasToken(SlugWithZone(fqdn, zone)) {
        return Err(QueryToken);
      }
      ghost var sets0 := hosted.sets;
      SelectEmpty(sets0, Text, fqdn);
      WithoutNothing(sets0, Key(fqdn), TypeTXT);
      TextAfterUpsert(sets0, fqdn, [Quote(text)]);
      SetRecord(fqdn, TypeTXT, [Quote(text)]);
      r := GetText(fqdn, hasToken);
      QuoteRoundTrip(text);
    }

    /**
     * UpdateText: require an existing TXT set and its database row, store the
     * quoted text, then check the slug's token and answer the text itself.
     */
    method UpdateText(fqdn: string, text: string, txtRow: bool, hasToken: string -> bool)
      returns (r: Result<string, Error>)
      modifies hosted
      ensures old(Select(hosted.sets, Text, fqdn)) == [] ==>
        r == Err(FilterFailed) && hosted.sets == old(hosted.sets)
      ensures old(Select(hosted.sets, Text, fqdn)) != [] && !txtRow ==>
        r == Err(QueryTXT) && hosted.sets == old(hosted.sets)
      ensures old(Select(hosted.sets, Text, fqdn)) != [] && txtRow ==>
        Select(hosted.sets, Text, fqdn) == [RecordSet(Key(fqdn) + ".", TypeTXT, [Quote(text)])] &&
        ReadText(hosted.sets, fqdn, true) == Ok(Unquote(Quote(text))) &&
        (forall key, t :: key != Key(fqdn) || t != TypeTXT ==>
          Lookup(hosted.sets, key, t) == Lookup(old(hosted.sets), key, t)) &&
        r == if hasToken(SlugWithZone(fqdn, zone)) then Ok(text) else Err(QueryToken)
    {
      var valid, a, s, t := FilterRecords(hosted.sets, fqdn, TypeTXT);
      if !valid {
        return Err(FilterFailed);
      }
      if !txtRow {
        return Err(QueryTXT);
      }
      ghost var sets0 := hosted.sets;
      TextAfterUpsert(sets0, fqdn, [Quote(text)]);
      SetRecord(fqdn, TypeTXT, [Quote(text)]);
      if !hasToken(SlugWithZone(fqdn, zone)) {
        return Err(QueryToken);
      }
      return Ok(text);
    }
  }

  /** What GetText answers for the zone's sets, given whether the slug's token exists. */
  function ReadText(sets: seq<RecordSet>, fqdn: string, tokenFound: bool): (r: Result<string, Error>)
    ensures r.Ok? <==> Select(sets, Text, fqdn) != [] && tokenFound && Select(sets, Text, fqdn)[0].values != []
  {
    var t := Select(sets, Text, fqdn);
    if t == [] then Err(FilterFailed)
    else if !tokenFound then Err(QueryToken)
    else if t[0].values == [] then Err(IndexOutOfRange)
    else Ok(Unquote(t[0].values[0]))
  }
}

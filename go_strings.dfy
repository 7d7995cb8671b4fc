/**
 * The parts of Go's `strings` package that the backends and the token middleware
 * use, written as functions over `string` (= seq<char>), with the facts about
 * them that the rest of the model needs.
 *
 *  - Index, Contains, HasPrefix
 *  - Split, SplitN, SplitAfterN (all three are Go's genSplit)
 *  - Join
 *  - Replace with a one-character old and new string
 *  - TrimLeft, TrimRight, Trim with a cutset
 */
module GoStrings {

  /** strings.Index: the first position at which `sep` occurs in `s`, or -1. */
  function Index(s: string, sep: string): (r: int)
    ensures r == -1 || (0 <= r && r + |sep| <= |s| && s[r..r + |sep|] == sep)
    decreases |s|
  {
    if |s| < |sep| then -1
    else if s[..|sep|] == sep then 0
    else
      var k := Index(s[1..], sep);
      if k == -1 then -1
      else
        assert s[1..][k..k + |sep|] == s[k + 1..k + 1 + |sep|];
        k + 1
  }

  /** An occurrence of `sep` is the first one when no earlier character starts `sep`. */
  lemma {:induction false} IndexFirstOccurrence(s: string, sep: string, k: nat)
    requires sep != "" && k + |sep| <= |s| && s[k..k + |sep|] == sep
    requires forall i :: 0 <= i < k ==> s[i] != sep[0]
    ensures Index(s, sep) == k
    decreases k
  {
    if k > 0 {
      assert s[..|sep|][0] == s[0];
      assert s[1..][k - 1..k - 1 + |sep|] == s[k..k + |sep|];
      IndexFirstOccurrence(s[1..], sep, k - 1);
    }
  }

  /** strings.Contains. */
  predicate Contains(s: string, substr: string) {
    Index(s, substr) >= 0
  }

  /** strings.HasPrefix. */
  predicate HasPrefix(s: string, prefix: string) {
    |prefix| <= |s| && s[..|prefix|] == prefix
  }

  /**
   * The pieces of `s` around the occurrences of `sep`, at most `n` of them when
   * `n > 0` and all of them when `n < 0`; the last piece is the unsplit rest.
   * With `keep` each piece but the last retains its separator (SplitAfter).
   */
  function Pieces(s: string, sep: string, keep: bool, n: int): seq<string>
    requires sep != "" && n != 0
    decreases |s|
  {
    var m := Index(s, sep);
    if n == 1 || m < 0 then [s]
    else
      [if keep then s[..m + |sep|] else s[..m]]
        + Pieces(s[m + |sep|..], sep, keep, if n < 0 then n else n - 1)
  }

  /** strings.explode (splitting on the empty separator): one piece per character. */
  function Explode(s: string, n: int): seq<string> {
    var k := if n < 0 || n > |s| then |s| else n;
    if k == 0 then []
    else seq(k - 1, i requires 0 <= i < k - 1 => [s[i]]) + [s[k - 1..]]
  }

  /** strings.genSplit: `n == 0` gives no pieces (a nil slice). */
  function GenSplit(s: string, sep: string, keep: bool, n: int): seq<string> {
    if n == 0 then []
    else if sep == "" then Explode(s, n)
    else Pieces(s, sep, keep, n)
  }

  /** strings.Split. */
  function Split(s: string, sep: string): seq<string> {
    GenSplit(s, sep, false, -1)
  }

  /** strings.SplitN. */
  function SplitN(s: string, sep: string, n: int): seq<string> {
    GenSplit(s, sep, false, n)
  }

  /** strings.SplitAfterN. */
  function SplitAfterN(s: string, sep: string, n: int): seq<string> {
    GenSplit(s, sep, true, n)
  }

  /** strings.Join. */
  function Join(ss: seq<string>, sep: string): string {
    if |ss| == 0 then ""
    else if |ss| == 1 then ss[0]
    else ss[0] + sep + Join(ss[1..], sep)
  }

  /** strings.Replace(s, [a], [b], -1): every `a` becomes `b`. */
  function ReplaceChar(s: string, a: char, b: char): string {
    seq(|s|, i requires 0 <= i < |s| => if s[i] == a then b else s[i])
  }

  /** strings.TrimLeft: drop every leading character that is in `cutset`. */
  function TrimLeft(s: string, cutset: string): string
    decreases |s|
  {
    if |s| > 0 && s[0] in cutset then TrimLeft(s[1..], cutset) else s
  }

  /** strings.TrimRight: drop every trailing character that is in `cutset`. */
  function TrimRight(s: string, cutset: string): string
    decreases |s|
  {
    if |s| > 0 && s[|s| - 1] in cutset then TrimRight(s[..|s| - 1], cutset) else s
  }

  /** strings.Trim: both ends. */
  function Trim(s: string, cutset: string): string {
    TrimRight(TrimLeft(s, cutset), cutset)
  }

  /** The labels of a dotted name: strings.Split(name, "."). */
  function Labels(name: string): seq<string> {
    Split(name, ".")
  }

  // ---------------------------------------------------------------------------
  // Facts about splitting on a one-character separator

  /** Splitting on one character finds its first occurrence. */
  lemma {:induction false} IndexChar(s: string, c: char)
    ensures Index(s, [c]) == -1 <==> c !in s
    ensures Index(s, [c]) >= 0 ==> s[Index(s, [c])] == c && c !in s[..Index(s, [c])]
    decreases |s|
  {
    if |s| >= 1 && s[..1] != [c] {
      assert s[0] != c by { assert s[..1] == [s[0]]; }
      IndexChar(s[1..], c);
      var k := Index(s[1..], [c]);
      if k >= 0 {
        assert s[..k + 1] == [s[0]] + s[1..][..k];
      } else {
        assert s == [s[0]] + s[1..];
      }
    } else if |s| >= 1 {
      assert s[0] == c by { assert s[..1] == [s[0]]; }
    }
  }

  /** A name without the separator splits into itself alone. */
  lemma SplitNoSep(s: string, c: char, keep: bool, n: int)
    requires c !in s && n != 0
    ensures Pieces(s, [c], keep, n) == [s]
  {
    IndexChar(s, c);
  }

  /** Unfolding one split step at the first separator. */
  lemma SplitFirst(s: string, c: char, keep: bool, n: int)
    requires c in s && n != 0 && n != 1
    ensures var m := Index(s, [c]);
      0 <= m < |s| && s[m] == c && c !in s[..m] &&
      Pieces(s, [c], keep, n)
        == [if keep then s[..m + 1] else s[..m]] + Pieces(s[m + 1..], [c], keep, if n < 0 then n else n - 1)
  {
    IndexChar(s, c);
  }

  /** A position holding `c` with no `c` before it is where Index finds `c`. */
  lemma IndexIsFirst(s: string, c: char, k: nat)
    requires k < |s| && s[k] == c && c !in s[..k]
    ensures Index(s, [c]) == k
  {
    IndexChar(s, c);
    var m := Index(s, [c]);
    assert forall i :: 0 <= i < k ==> s[..k][i] == s[i];
    assert forall i :: 0 <= i < m ==> s[..m][i] == s[i];
  }

  /** The first separator of `a + c + b` is the first one of `a`, or the `c` after `a`. */
  lemma IndexConcat(a: string, c: char, b: string)
    ensures Index(a + [c] + b, [c]) == if c in a then Index(a, [c]) else |a|
  {
    var s := a + [c] + b;
    assert s[|a|] == c;
    if c in a {
      IndexChar(a, c);
      var ma := Index(a, [c]);
      assert s[..ma] == a[..ma];
      IndexIsFirst(s, c, ma);
    } else {
      assert s[..|a|] == a;
      IndexIsFirst(s, c, |a|);
    }
  }

  /** Splitting `a + c + b` splits `a` and `b` separately. */
  lemma {:induction false} SplitConcat(a: string, c: char, b: string)
    ensures Pieces(a + [c] + b, [c], false, -1) == Pieces(a, [c], false, -1) + Pieces(b, [c], false, -1)
    decreases |a|
  {
    if c in a {
      var ma := Index(a, [c]);
      SplitConcatFirst(a, c, b);
      var rest := a[ma + 1..];
      PiecesAt(a, c, false, -1, ma);
      SplitConcat(rest, c, b);
      Regroup(Pieces(a + [c] + b, [c], false, -1), a[..ma], Pieces(rest + [c] + b, [c], false, -1),
              Pieces(a, [c], false, -1), Pieces(rest, [c], false, -1), Pieces(b, [c], false, -1));
    } else {
      SplitConcatLast(a, c, b);
      SplitNoSep(a, c, false, -1);
    }
  }

  /** Moving a first piece in front of a concatenation. */
  lemma Regroup(whole: seq<string>, first: string, tail: seq<string>,
                pa: seq<string>, pr: seq<string>, pb: seq<string>)
    requires whole == [first] + tail && pa == [first] + pr && tail == pr + pb
    ensures whole == pa + pb
  {
  }

  /** When `a` holds the separator, the first piece of `a + c + b` is the one of `a`. */
  lemma SplitConcatFirst(a: string, c: char, b: string)
    requires c in a
    ensures var ma := Index(a, [c]);
      0 <= ma < |a| &&
      Pieces(a + [c] + b, [c], false, -1) == [a[..ma]] + Pieces(a[ma + 1..] + [c] + b, [c], false, -1)
  {
    var s := a + [c] + b;
    var ma := Index(a, [c]);
    assert 0 <= ma < |a| by {
      IndexChar(a, c);
    }
    assert Index(s, [c]) == ma by {
      IndexConcat(a, c, b);
    }
    PiecesAt(s, c, false, -1, ma);
    ConcatSlices(a, c, b, ma);
  }

  /** The parts of `a + c + b` around a position inside `a`. */
  lemma ConcatSlices(a: string, c: char, b: string, m: nat)
    requires m < |a|
    ensures (a + [c] + b)[..m] == a[..m] && (a + [c] + b)[m + 1..] == a[m + 1..] + [c] + b
  {
  }

  /** One split step at the position Index finds. */
  lemma PiecesAt(s: string, c: char, keep: bool, n: int, m: int)
    requires n != 0 && n != 1 && 0 <= m && Index(s, [c]) == m
    ensures m < |s| &&
      Pieces(s, [c], keep, n) == [if keep then s[..m + 1] else s[..m]] + Pieces(s[m + 1..], [c], keep, if n < 0 then n else n - 1)
  {
  }

  /** When `a` has no separator, it is the first piece of `a + c + b`. */
  lemma SplitConcatLast(a: string, c: char, b: string)
    requires c !in a
    ensures Pieces(a + [c] + b, [c], false, -1) == [a] + Pieces(b, [c], false, -1)
  {
    var s := a + [c] + b;
    assert Index(s, [c]) == |a| by {
      IndexConcat(a, c, b);
    }
    PiecesAt(s, c, false, -1, |a|);
    assert s[..|a|] == a;
    assert s[|a| + 1..] == b;
  }

  /** Every piece of a full split is free of the separator. */
  lemma {:induction false} SplitPiecesNoSep(s: string, c: char)
    ensures |Pieces(s, [c], false, -1)| >= 1
    ensures forall p :: p in Pieces(s, [c], false, -1) ==> c !in p
    decreases |s|
  {
    if c in s {
      SplitFirst(s, c, false, -1);
      SplitPiecesNoSep(s[Index(s, [c]) + 1..], c);
    } else {
      SplitNoSep(s, c, false, -1);
    }
  }

  /** A character absent from the string is absent from every piece of its split. */
  lemma {:induction false} SplitPiecesAvoid(s: string, c: char, x: char)
    requires x !in s
    ensures forall p :: p in Pieces(s, [c], false, -1) ==> x !in p
    decreases |s|
  {
    if c in s {
      SplitFirst(s, c, false, -1);
      var m := Index(s, [c]);
      assert forall i :: 0 <= i < m ==> s[..m][i] == s[i];
      var rest := s[m + 1..];
      assert forall i :: 0 <= i < |rest| ==> rest[i] == s[m + 1 + i];
      SplitPiecesAvoid(rest, c, x);
    } else {
      SplitNoSep(s, c, false, -1);
    }
  }

  /** Joining the pieces of a split gives back the string. */
  lemma {:induction false} JoinPieces(s: string, sep: string, n: int)
    requires sep != "" && n != 0
    ensures Join(Pieces(s, sep, false, n), sep) == s
    decreases |s|
  {
    var m := Index(s, sep);
    if n != 1 && m >= 0 {
      var rest := s[m + |sep|..];
      JoinPieces(rest, sep, if n < 0 then n else n - 1);
      var ps := Pieces(rest, sep, false, if n < 0 then n else n - 1);
      assert |ps| >= 1;
      assert s == s[..m] + s[m..m + |sep|] + rest;
    }
  }

  /** Splitting a join of separator-free pieces gives back the pieces. */
  lemma {:induction false} SplitJoin(ss: seq<string>, c: char)
    requires |ss| >= 1
    requires forall i :: 0 <= i < |ss| ==> c !in ss[i]
    ensures Pieces(Join(ss, [c]), [c], false, -1) == ss
    decreases |ss|
  {
    if |ss| == 1 {
      SplitNoSep(ss[0], c, false, -1);
    } else {
      var rest := Join(ss[1..], [c]);
      assert Join(ss, [c]) == ss[0] + [c] + rest;
      SplitConcat(ss[0], c, rest);
      SplitNoSep(ss[0], c, false, -1);
      SplitJoin(ss[1..], c);
      assert [ss[0]] + ss[1..] == ss;
    }
  }

  /** The labels of `a.b` are those of `a` followed by those of `b`. */
  lemma LabelsConcat(a: string, b: string)
    ensures Labels(a + "." + b) == Labels(a) + Labels(b)
  {
    SplitConcat(a, '.', b);
  }

  /** The labels of a name never contain a dot, and there is always one. */
  lemma LabelsNoDot(name: string)
    ensures |Labels(name)| >= 1
    ensures forall i :: 0 <= i < |Labels(name)| ==> '.' !in Labels(name)[i]
  {
    SplitPiecesNoSep(name, '.');
  }

  /** Joining the labels with dots gives back the name. */
  lemma JoinLabels(name: string)
    ensures Join(Labels(name), ".") == name
  {
    JoinPieces(name, ".", -1);
  }

  /** The labels of dot-free labels joined with dots are those labels. */
  lemma LabelsOfJoin(ls: seq<string>)
    requires |ls| >= 1
    requires forall i :: 0 <= i < |ls| ==> '.' !in ls[i]
    ensures Labels(Join(ls, ".")) == ls
  {
    SplitJoin(ls, '.');
  }

  /** A name without a dot is a single label. */
  lemma LabelsOfLabel(l: string)
    requires '.' !in l
    ensures Labels(l) == [l]
  {
    SplitNoSep(l, '.', false, -1);
  }

  /** A dot-free label in front of a name adds one label in front of its labels. */
  lemma LabelsInFront(l: string, name: string)
    requires '.' !in l
    ensures Labels(l + "." + name) == [l] + Labels(name)
  {
    LabelsConcat(l, name);
    LabelsOfLabel(l);
  }

  /** Join distributes over a split of the sequence. */
  lemma {:induction false} JoinAppend(a: seq<string>, b: seq<string>, sep: string)
    requires |a| >= 1 && |b| >= 1
    ensures Join(a + b, sep) == Join(a, sep) + sep + Join(b, sep)
    decreases |a|
  {
    if |a| == 1 {
      assert (a + b)[1..] == b;
    } else {
      JoinAppend(a[1..], b, sep);
      assert (a + b)[1..] == a[1..] + b;
    }
  }

  /** Every negative limit means "all pieces". */
  lemma {:induction false} PiecesUnlimited(s: string, sep: string, keep: bool, n: int)
    requires sep != "" && n < 0
    ensures Pieces(s, sep, keep, n) == Pieces(s, sep, keep, -1)
    decreases |s|
  {
    var m := Index(s, sep);
    if m >= 0 {
      PiecesUnlimited(s[m + |sep|..], sep, keep, n);
    }
  }

  /** A name has more than one label exactly when it contains a dot. */
  lemma LabelCount(s: string)
    ensures |Labels(s)| >= 2 <==> '.' in s
  {
    if '.' in s {
      SplitFirst(s, '.', false, -1);
    } else {
      SplitNoSep(s, '.', false, -1);
    }
  }

  /**
   * SplitN(s, ".", n) with n between 1 and the label count: n pieces, the first
   * n-1 labels and then the remaining labels joined back with dots.
   */
  lemma SplitNLabels(s: string, n: int)
    requires 1 <= n <= |Labels(s)|
    ensures var ps := SplitN(s, ".", n);
      |ps| == n && ps[..n - 1] == Labels(s)[..n - 1] && ps[n - 1] == Join(Labels(s)[n - 1..], ".")
  {
    assert SplitN(s, ".", n) == Pieces(s, ".", false, n);
    assert Labels(s) == Pieces(s, ".", false, -1);
    PiecesLabels(s, n);
  }

  lemma {:induction false} PiecesLabels(s: string, n: int)
    requires 1 <= n <= |Pieces(s, ".", false, -1)|
    ensures var ps, ls := Pieces(s, ".", false, n), Pieces(s, ".", false, -1);
      |ps| == n && ps[..n - 1] == ls[..n - 1] && ps[n - 1] == Join(ls[n - 1..], ".")
    decreases n
  {
    var ps, ls := Pieces(s, ".", false, n), Pieces(s, ".", false, -1);
    if n == 1 {
      JoinPieces(s, ".", -1);
      assert ls[0..] == ls;
    } else {
      var m := Index(s, ".");
      assert m >= 0;
      PiecesAt(s, '.', false, n, m);
      PiecesAt(s, '.', false, -1, m);
      var rest := s[m + 1..];
      var pr, lr := Pieces(rest, ".", false, n - 1), Pieces(rest, ".", false, -1);
      assert ls == [s[..m]] + lr;
      assert ps == [s[..m]] + pr;
      PiecesLabels(rest, n - 1);
      ConsSlices(s[..m], pr, n - 2);
      ConsSlices(s[..m], lr, n - 2);
    }
  }

  /** Slicing a sequence with one element in front. */
  lemma ConsSlices(x: string, t: seq<string>, k: nat)
    requires k <= |t|
    ensures ([x] + t)[..k + 1] == [x] + t[..k] && ([x] + t)[k + 1..] == t[k..]
  {
  }

  /**
   * SplitAfterN(s, ".", n) with n >= 2 (or unlimited) on a name of two or more
   * labels: the first piece is the first label with its dot; the second is the
   * whole rest when n is 2 or there are only two labels, and otherwise the second
   * label with its dot.
   */
  lemma SplitAfterNSecond(s: string, n: int)
    requires |Labels(s)| >= 2 && (n >= 2 || n < 0)
    ensures var ps := SplitAfterN(s, ".", n); var ls := Labels(s);
      |ps| >= 2 && ps[0] == ls[0] + "." &&
      ps[1] == if n == 2 || |ls| == 2 then Join(ls[1..], ".") else ls[1] + "."
  {
    LabelCount(s);
    SplitFirst(s, '.', true, n);
    SplitFirst(s, '.', false, -1);
    var m := Index(s, ".");
    var rest := s[m + 1..];
    assert s[..m + 1] == s[..m] + ".";
    var ps, ls := SplitAfterN(s, ".", n), Labels(s);
    assert ps == [s[..m] + "."] + Pieces(rest, ".", true, if n < 0 then n else n - 1);
    assert ls == [s[..m]] + Labels(rest);
    SplitAfterFirst(rest, if n < 0 then n else n - 1);
  }

  /**
   * The first piece of SplitAfterN(rest, ".", n): the whole of `rest` when n is 1
   * or `rest` has one label, and otherwise its first label with its dot.
   */
  lemma SplitAfterFirst(rest: string, n: int)
    requires n >= 1 || n < 0
    ensures var pr, lr := Pieces(rest, ".", true, n), Labels(rest);
      |pr| >= 1 && pr[0] == if n == 1 || |lr| == 1 then Join(lr, ".") else lr[0] + "."
  {
    JoinLabels(rest);
    LabelCount(rest);
    if n == 1 {
    } else if '.' in rest {
      SplitFirst(rest, '.', true, n);
      SplitFirst(rest, '.', false, -1);
      var m := Index(rest, ".");
      assert rest[..m + 1] == rest[..m] + ".";
    } else {
      SplitNoSep(rest, '.', true, n);
    }
  }

  // ---------------------------------------------------------------------------
  // Facts about the cutset trims

  /** TrimLeft drops a prefix made of cutset characters and stops at a character outside it. */
  lemma {:induction false} TrimLeftShape(s: string, cutset: string)
    ensures var r := TrimLeft(s, cutset);
      |r| <= |s| && r == s[|s| - |r|..] &&
      (forall i :: 0 <= i < |s| - |r| ==> s[i] in cutset) &&
      (r != "" ==> r[0] !in cutset)
    decreases |s|
  {
    if |s| > 0 && s[0] in cutset {
      TrimLeftShape(s[1..], cutset);
    }
  }

  /** TrimLeft removes exactly a prefix of cutset characters in front of a string that starts outside the cutset. */
  lemma {:induction false} TrimLeftCutPrefix(p: string, s: string, cutset: string)
    requires forall i :: 0 <= i < |p| ==> p[i] in cutset
    requires s == "" || s[0] !in cutset
    ensures TrimLeft(p + s, cutset) == s
    decreases |p|
  {
    if p == [] {
      assert p + s == s;
    } else {
      assert (p + s)[1..] == p[1..] + s;
      TrimLeftCutPrefix(p[1..], s, cutset);
    }
  }

  /** TrimRight drops a suffix made of cutset characters and stops at a character outside it. */
  lemma {:induction false} TrimRightShape(s: string, cutset: string)
    ensures var r := TrimRight(s, cutset);
      |r| <= |s| && r == s[..|r|] &&
      (forall i :: |r| <= i < |s| ==> s[i] in cutset) &&
      (r != "" ==> r[|r| - 1] !in cutset)
    decreases |s|
  {
    if |s| > 0 && s[|s| - 1] in cutset {
      TrimRightShape(s[..|s| - 1], cutset);
    }
  }

  /** A string that neither starts nor ends with a cutset character is left alone by Trim. */
  lemma TrimUntouched(s: string, cutset: string)
    requires s == "" || (s[0] !in cutset && s[|s| - 1] !in cutset)
    ensures Trim(s, cutset) == s
  {
  }

  /** TrimRight of a name with one more trailing dot is the TrimRight of the name. */
  lemma TrimRightDot(s: string)
    ensures TrimRight(s + ".", ".") == TrimRight(s, ".")
  {
    assert (s + ".")[..|s + "."| - 1] == s;
  }

  /** TrimRight is idempotent. */
  lemma {:induction false} TrimRightIdempotent(s: string, cutset: string)
    ensures TrimRight(TrimRight(s, cutset), cutset) == TrimRight(s, cutset)
    decreases |s|
  {
    if |s| > 0 && s[|s| - 1] in cutset {
      TrimRightIdempotent(s[..|s| - 1], cutset);
    }
  }
}

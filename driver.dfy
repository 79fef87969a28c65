/** The dependency tracker of the Mach-O linker driver and the two library
    searches its header declares.  The tracker's not-found set is an ordered
    set of owned strings: it is kept as the strictly ascending sequence in
    which the set enumerates.  The dependency-info file is modelled as the
    list of records it holds, not as bytes; its reader is `Parse`.  The
    filesystem enters only as a predicate `onDisk` saying which paths exist. */
module Driver {

  datatype Option<T> = None | Some(value: T)

  // ---------------------------------------------------------------------
  // The order of std::string

  /** `a < b` for strings: the first differing character decides, and a
      proper prefix comes first.  Characters compare by their codes. */
  function LexLess(a: string, b: string): (r: bool)
    ensures r ==> a != b
    decreases |a|
  {
    |b| > 0 && (|a| == 0 || a[0] < b[0] || (a[0] == b[0] && LexLess(a[1..], b[1..])))
  }

  lemma {:induction false} LexTransitive(a: string, b: string, c: string)
    requires LexLess(a, b) && LexLess(b, c)
    ensures LexLess(a, c)
    decreases |a|
  {
    if |a| > 0 && a[0] == b[0] && b[0] == c[0] {
      LexTransitive(a[1..], b[1..], c[1..]);
    }
  }

  /** Two different strings are ordered one way or the other. */
  lemma {:induction false} LexTotal(a: string, b: string)
    requires a != b
    ensures LexLess(a, b) || LexLess(b, a)
    decreases |a|
  {
    if |a| > 0 && |b| > 0 && a[0] == b[0] {
      assert a == [a[0]] + a[1..] && b == [b[0]] + b[1..];
      LexTotal(a[1..], b[1..]);
    }
  }

  lemma LexAsymmetric(a: string, b: string)
    requires LexLess(a, b)
    ensures !LexLess(b, a)
  {
    if LexLess(b, a) {
      LexTransitive(a, b, a);
    }
  }

  /** The enumeration order of `std::set<std::string>`: strictly ascending,
      hence free of duplicates. */
  predicate StrictlySorted(s: seq<string>)
  {
    forall i, j :: 0 <= i < j < |s| ==> LexLess(s[i], s[j])
  }

  // ---------------------------------------------------------------------
  // The not-found set

  /** `notFounds.insert(p)`: the set gains `p` and nothing else, and stays in
      ascending order; a path already present leaves it as it was. */
  function Insert(s: seq<string>, p: string): (r: seq<string>)
    requires StrictlySorted(s)
    ensures StrictlySorted(r)
    ensures forall x :: x in r <==> x in s || x == p
    ensures p in s ==> r == s
  {
    if s == [] then [p]
    else if p == s[0] then s
    else if LexLess(p, s[0]) then
      InsertBefore(p, s);
      [p] + s
    else
      assert StrictlySorted(s[1..]);
      LexTotal(p, s[0]);
      assert forall x :: x in s[1..] ==> LexLess(s[0], x) by {
        forall x | x in s[1..] ensures LexLess(s[0], x) {
          var k :| 0 <= k < |s[1..]| && s[1..][k] == x;
          assert s[k + 1] == x;
        }
      }
      var rest := Insert(s[1..], p);
      InsertAfter(s[0], rest, s[1..], p);
      assert p in s ==> p in s[1..];
      assert s == [s[0]] + s[1..];
      [s[0]] + rest
  }

  lemma InsertBefore(p: string, s: seq<string>)
    requires StrictlySorted(s) && s != [] && LexLess(p, s[0])
    ensures StrictlySorted([p] + s)
    ensures p !in s
  {
    forall j | 0 < j < |s|
      ensures LexLess(p, s[j])
    {
      LexTransitive(p, s[0], s[j]);
    }
    if p == s[0] {
      assert false;
    }
  }

  lemma InsertAfter(h: string, rest: seq<string>, tail: seq<string>, p: string)
    requires StrictlySorted(rest)
    requires forall x :: x in rest <==> x in tail || x == p
    requires forall x :: x in tail ==> LexLess(h, x)
    requires LexLess(h, p)
    ensures StrictlySorted([h] + rest)
  {
    forall j | 0 <= j < |rest|
      ensures LexLess(h, rest[j])
    {
      assert rest[j] in rest;
    }
  }

  /** Two ascending sequences holding the same strings are the same
      sequence: the enumeration depends only on the set's contents. */
  lemma {:induction false} SortedUnique(a: seq<string>, b: seq<string>)
    requires StrictlySorted(a) && StrictlySorted(b)
    requires forall x :: x in a <==> x in b
    ensures a == b
    decreases |a|
  {
    if a != [] {
      assert a[0] in a;
    }
    if b != [] {
      assert b[0] in b;
    }
    if a != [] {
      assert a[0] in b && b != [];
      if a[0] != b[0] {
        var i :| 0 < i < |b| && b[i] == a[0];
        var j :| 0 < j < |a| && a[j] == b[0];
        LexAsymmetric(b[0], a[0]);
        assert false;
      }
      forall x
        ensures x in a[1..] <==> x in b[1..]
      {
        if x in a[1..] {
          var i :| 1 <= i < |a| && a[i] == x;
          assert LexLess(a[0], x);
          assert x in b && x != b[0];
          assert b == [b[0]] + b[1..];
        }
        if x in b[1..] {
          var i :| 1 <= i < |b| && b[i] == x;
          assert LexLess(b[0], x);
          assert x in a && x != a[0];
          assert a == [a[0]] + a[1..];
        }
      }
      assert StrictlySorted(a[1..]) && StrictlySorted(b[1..]);
      SortedUnique(a[1..], b[1..]);
      assert a == [a[0]] + a[1..] && b == [b[0]] + b[1..];
    }
  }

  /** Logging a path twice leaves the set as logging it once. */
  lemma InsertIdempotent(s: seq<string>, p: string)
    requires StrictlySorted(s)
    ensures Insert(Insert(s, p), p) == Insert(s, p)
  {
  }

  /** The set does not remember the order paths were logged in. */
  lemma InsertCommutes(s: seq<string>, p: string, q: string)
    requires StrictlySorted(s)
    ensures Insert(Insert(s, p), q) == Insert(Insert(s, q), p)
  {
    SortedUnique(Insert(Insert(s, p), q), Insert(Insert(s, q), p));
  }

  /** Logging "b" and then "a" enumerates "a" first. */
  lemma InsertExample()
    ensures Insert(Insert([], "b"), "a") == ["a", "b"]
  {
    assert LexLess("a", "b");
  }

  // ---------------------------------------------------------------------
  // Sorting the input paths

  /** Ascending, duplicates allowed: no path is less than one before it. */
  predicate Ascending(s: seq<string>)
  {
    forall i, j :: 0 <= i < j < |s| ==> !LexLess(s[j], s[i])
  }

  /** Not-less is transitive, since the order of strings is total. */
  lemma {:induction false} NotLessTransitive(a: string, b: string, c: string)
    requires !LexLess(b, a) && !LexLess(c, b)
    ensures !LexLess(c, a)
  {
    if a != b {
      LexTotal(a, b);
    }
    if b != c {
      LexTotal(b, c);
    }
    if a != b && b != c {
      LexTransitive(a, b, c);
      LexAsymmetric(a, c);
    }
  }

  /** Places `p` in an ascending sequence. */
  function InsertAscending(s: seq<string>, p: string): (r: seq<string>)
    requires Ascending(s)
    ensures Ascending(r)
    ensures multiset(r) == multiset(s) + multiset{p}
  {
    if s == [] then [p]
    else if !LexLess(s[0], p) then
      AscendingBefore(p, s);
      [p] + s
    else
      assert Ascending(s[1..]);
      var rest := InsertAscending(s[1..], p);
      AscendingAfter(s, p, rest);
      [s[0]] + rest
  }

  /** A head that no later element is less than extends an ascending
      sequence. */
  lemma AscendingCons(h: string, rest: seq<string>)
    requires Ascending(rest)
    requires forall x :: x in rest ==> !LexLess(x, h)
    ensures Ascending([h] + rest)
  {
    var t := [h] + rest;
    forall i, j | 0 <= i < j < |t|
      ensures !LexLess(t[j], t[i])
    {
      assert t[j] == rest[j - 1] && t[j] in rest;
      if i > 0 {
        assert t[i] == rest[i - 1];
      }
    }
  }

  lemma AscendingBefore(p: string, s: seq<string>)
    requires Ascending(s) && s != [] && !LexLess(s[0], p)
    ensures Ascending([p] + s)
  {
    forall x | x in s
      ensures !LexLess(x, p)
    {
      var j :| 0 <= j < |s| && s[j] == x;
      if j > 0 {
        NotLessTransitive(p, s[0], s[j]);
      }
    }
    AscendingCons(p, s);
  }

  lemma AscendingAfter(s: seq<string>, p: string, rest: seq<string>)
    requires Ascending(s) && s != [] && LexLess(s[0], p)
    requires Ascending(rest) && multiset(rest) == multiset(s[1..]) + multiset{p}
    ensures Ascending([s[0]] + rest)
    ensures multiset([s[0]] + rest) == multiset(s) + multiset{p}
  {
    forall x | x in rest
      ensures !LexLess(x, s[0])
    {
      assert x in multiset(rest);
      if x != p {
        assert x in multiset(s[1..]);
        var k :| 0 <= k < |s[1..]| && s[1..][k] == x;
        assert s[k + 1] == x;
      } else {
        LexAsymmetric(s[0], p);
      }
    }
    AscendingCons(s[0], rest);
    assert s == [s[0]] + s[1..];
  }

  /** The inputs in alphabetical order: an ascending permutation of the
      given list. */
  function SortPaths(s: seq<string>): (r: seq<string>)
    ensures Ascending(r)
    ensures multiset(r) == multiset(s)
  {
    if s == [] then []
    else
      assert s == [s[0]] + s[1..];
      InsertAscending(SortPaths(s[1..]), s[0])
  }

  /** Two ascending sequences with the same elements are the same sequence:
      the sorted inputs depend only on which inputs there are, not on the
      order they were given in. */
  lemma {:induction false} AscendingUnique(a: seq<string>, b: seq<string>)
    requires Ascending(a) && Ascending(b)
    requires multiset(a) == multiset(b)
    ensures a == b
    decreases |a|
  {
    if a != [] {
      AscendingHeads(a, b);
      SameTails(a, b);
      assert Ascending(a[1..]) && Ascending(b[1..]);
      AscendingUnique(a[1..], b[1..]);
      assert a == [a[0]] + a[1..] && b == [b[0]] + b[1..];
    } else {
      assert |multiset(b)| == 0;
    }
  }

  /** Two ascending sequences with the same elements start alike. */
  lemma AscendingHeads(a: seq<string>, b: seq<string>)
    requires Ascending(a) && Ascending(b)
    requires multiset(a) == multiset(b) && a != []
    ensures b != [] && a[0] == b[0]
  {
    assert a[0] in multiset(b);
    var i :| 0 <= i < |b| && b[i] == a[0];
    assert b[0] in multiset(a);
    var j :| 0 <= j < |a| && a[j] == b[0];
    assert !LexLess(a[0], a[0]);
    assert !LexLess(a[0], b[0]) by {
      if i > 0 {
        assert !LexLess(b[i], b[0]);
      }
    }
    assert !LexLess(b[0], a[0]) by {
      if j > 0 {
        assert !LexLess(a[j], a[0]);
      }
    }
    if a[0] != b[0] {
      LexTotal(a[0], b[0]);
    }
  }

  /** Removing a common head from sequences with the same elements leaves
      sequences with the same elements. */
  lemma SameTails(a: seq<string>, b: seq<string>)
    requires a != [] && b != [] && a[0] == b[0]
    requires multiset(a) == multiset(b)
    ensures multiset(a[1..]) == multiset(b[1..])
  {
    assert a == [a[0]] + a[1..] && b == [b[0]] + b[1..];
    assert multiset(a[1..]) == multiset(a) - multiset{a[0]};
    assert multiset(b[1..]) == multiset(b) - multiset{b[0]};
  }

  /** The file does not depend on the order the inputs were given in. */
  lemma SortPathsPermutationInvariant(s: seq<string>, t: seq<string>)
    requires multiset(s) == multiset(t)
    ensures SortPaths(s) == SortPaths(t)
  {
    AscendingUnique(SortPaths(s), SortPaths(t));
  }

  /** Inputs given as "b", "a" are written "a", "b". */
  lemma SortPathsExample()
    ensures SortPaths(["b", "a"]) == ["a", "b"]
  {
    var r := SortPaths(["b", "a"]);
    assert LexLess("a", "b");
    LexAsymmetric("a", "b");
    assert Ascending(["a", "b"]);
    assert multiset(["b", "a"]) == multiset(["a", "b"]);
    AscendingUnique(r, ["a", "b"]);
  }

  // ---------------------------------------------------------------------
  // Twine

  /** A `Twine` is a lazy concatenation of pieces; `str()` joins them. */
  function TwineStr(pieces: seq<string>): (r: string)
    ensures pieces == [] ==> r == ""
  {
    if pieces == [] then "" else pieces[0] + TwineStr(pieces[1..])
  }

  /** Joining is the same however the pieces are grouped. */
  lemma {:induction false} TwineStrAppend(p: seq<string>, q: seq<string>)
    ensures TwineStr(p + q) == TwineStr(p) + TwineStr(q)
    decreases |p|
  {
    if p != [] {
      assert (p + q)[0] == p[0];
      assert (p + q)[1..] == p[1..] + q;
      TwineStrAppend(p[1..], q);
      calc {
        TwineStr(p + q);
        p[0] + TwineStr(p[1..] + q);
        p[0] + (TwineStr(p[1..]) + TwineStr(q));
        (p[0] + TwineStr(p[1..])) + TwineStr(q);
      }
    } else {
      assert p + q == q;
    }
  }

  // ---------------------------------------------------------------------
  // The dependency-info records

  /** The record kinds of the dependency-info file. */
  datatype DepOpCode = Version | Input | NotFound | Output
  {
    /** The byte each kind is written as. */
    function Code(): (b: bv8)
    {
      match this
      case Version => 0x00
      case Input => 0x10
      case NotFound => 0x11
      case Output => 0x40
    }
  }

  datatype Record = Record(op: DepOpCode, path: string)

  /** What the file records: the linker version, the inputs, the paths
      looked for and not found, and the output. */
  datatype DependencyInfo = DependencyInfo(version: string, inputs: seq<string>, notFounds: seq<string>, output: string)

  /** The codes are distinct and ascend in the order the kinds are written. */
  lemma CodesAscend()
    ensures Version.Code() < Input.Code() < NotFound.Code() < Output.Code()
    ensures forall a: DepOpCode, b: DepOpCode :: a.Code() == b.Code() ==> a == b
  {
  }

  /** One record of kind `op` per path, in order. */
  function Section(op: DepOpCode, paths: seq<string>): (r: seq<Record>)
    ensures |r| == |paths|
    ensures forall i :: 0 <= i < |r| ==> r[i] == Record(op, paths[i])
  {
    if paths == [] then [] else [Record(op, paths[0])] + Section(op, paths[1..])
  }

  /** The records of a dependency-info file, section by section in
      ascending opcode order: the version, the inputs, the not-found paths,
      the output.  Every record carries the kind of the section its index
      falls in. */
  function Serialize(d: DependencyInfo): (r: seq<Record>)
    ensures |r| == |d.inputs| + |d.notFounds| + 2
    ensures forall i :: 0 <= i < |r| ==> r[i].op == SectionOf(i, |d.inputs|, |d.notFounds|)
  {
    LayoutKinds(d);
    Layout(d)
  }

  /** The four sections one after the other. */
  function Layout(d: DependencyInfo): (r: seq<Record>)
  {
    [Record(Version, d.version)] + (Section(Input, d.inputs) + (Section(NotFound, d.notFounds) + [Record(Output, d.output)]))
  }

  /** Each record of the layout has its section's kind. */
  lemma LayoutKinds(d: DependencyInfo)
    ensures |Layout(d)| == |d.inputs| + |d.notFounds| + 2
    ensures forall i :: 0 <= i < |Layout(d)| ==> Layout(d)[i].op == SectionOf(i, |d.inputs|, |d.notFounds|)
  {
    var r := Layout(d);
    var a, b := |d.inputs|, |d.notFounds|;
    forall i | 0 <= i < |r|
      ensures r[i].op == SectionOf(i, a, b)
    {
      if 1 <= i <= a {
        assert r[i] == Section(Input, d.inputs)[i - 1];
      } else if a < i <= a + b {
        assert r[i] == Section(NotFound, d.notFounds)[i - 1 - a];
      }
    }
  }

  /** The kind of the record at index `i` of a file with `a` inputs and `b`
      not-found paths. */
  function SectionOf(i: int, a: int, b: int): (op: DepOpCode)
  {
    if i <= 0 then Version else if i <= a then Input else if i <= a + b then NotFound else Output
  }

  /** A later index never falls in a section with a smaller code. */
  lemma SectionOfMonotone(i: int, j: int, a: int, b: int)
    requires i <= j && 0 <= a && 0 <= b
    ensures SectionOf(i, a, b).Code() <= SectionOf(j, a, b).Code()
  {
    CodesAscend();
  }

  /** The file is sorted by opcode. */
  lemma SerializeCodesAscend(d: DependencyInfo)
    ensures var r := Serialize(d);
            forall i, j :: 0 <= i < j < |r| ==> r[i].op.Code() <= r[j].op.Code()
  {
    var r := Serialize(d);
    forall i, j | 0 <= i < j < |r|
      ensures r[i].op.Code() <= r[j].op.Code()
    {
      SectionOfMonotone(i, j, |d.inputs|, |d.notFounds|);
    }
  }

  /** A record of kind `op` in front of a split of the rest is a split of
      the whole. */
  lemma SectionConsRest(op: DepOpCode, r: seq<Record>, paths: seq<string>, rest: seq<Record>)
    requires r != [] && r[0].op == op && Section(op, paths) + rest == r[1..]
    ensures Section(op, [r[0].path] + paths) + rest == r
  {
    assert ([r[0].path] + paths)[1..] == paths;
    assert Section(op, [r[0].path] + paths) == [r[0]] + Section(op, paths);
    calc {
      Section(op, [r[0].path] + paths) + rest;
      [r[0]] + (Section(op, paths) + rest);
      [r[0]] + r[1..];
      r;
    }
  }

  /** Splits off the leading records of kind `op`. */
  function SplitSection(r: seq<Record>, op: DepOpCode): (res: (seq<string>, seq<Record>))
    ensures Section(op, res.0) + res.1 == r
    ensures res.1 == [] || res.1[0].op != op
  {
    if r == [] || r[0].op != op then ([], r)
    else
      var t := SplitSection(r[1..], op);
      SectionConsRest(op, r, t.0, t.1);
      ([r[0].path] + t.0, t.1)
  }

  /** A reader of the record list: one version record, the input section,
      the not-found section, and exactly one output record. */
  function Parse(r: seq<Record>): (d: Option<DependencyInfo>)
    ensures d.Some? ==> |r| == |d.value.inputs| + |d.value.notFounds| + 2
    ensures d.Some? ==> r[0] == Record(Version, d.value.version) && r[|r| - 1] == Record(Output, d.value.output)
  {
    if r == [] || r[0].op != Version then None
    else
      var (ins, r1) := SplitSection(r[1..], Input);
      var (nfs, r2) := SplitSection(r1, NotFound);
      if |r2| == 1 && r2[0].op == Output then Some(DependencyInfo(r[0].path, ins, nfs, r2[0].path))
      else None
  }

  lemma {:induction false} SplitSectionOf(op: DepOpCode, paths: seq<string>, rest: seq<Record>)
    requires rest == [] || rest[0].op != op
    ensures SplitSection(Section(op, paths) + rest, op) == (paths, rest)
    decreases |paths|
  {
    if paths != [] {
      var r := Section(op, paths) + rest;
      assert Section(op, paths) == [Record(op, paths[0])] + Section(op, paths[1..]);
      assert r[0] == Record(op, paths[0]);
      assert r[1..] == Section(op, paths[1..]) + rest;
      SplitSectionOf(op, paths[1..], rest);
      assert [paths[0]] + paths[1..] == paths;
    } else {
      assert Section(op, paths) + rest == rest;
    }
  }

  /** Reading back what was written recovers the version, the inputs in
      their order, the not-found paths and the output. */
  lemma ParseSerialize(d: DependencyInfo)
    ensures Parse(Serialize(d)) == Some(d)
  {
    var r := Serialize(d);
    var tail := Section(NotFound, d.notFounds) + [Record(Output, d.output)];
    assert r[1..] == Section(Input, d.inputs) + tail;
    if d.notFounds == [] {
      assert tail[0].op == Output;
    } else {
      assert tail[0].op == NotFound;
    }
    SplitSectionOf(Input, d.inputs, tail);
    SplitSectionOf(NotFound, d.notFounds, [Record(Output, d.output)]);
  }

  /** A record list the reader accepts is exactly what writing its result
      gives: the format has one spelling per content. */
  lemma SerializeParse(r: seq<Record>)
    requires Parse(r).Some?
    ensures Serialize(Parse(r).value) == r
  {
    var t1 := SplitSection(r[1..], Input);
    var t2 := SplitSection(t1.1, NotFound);
    var d := Parse(r).value;
    assert d == DependencyInfo(r[0].path, t1.0, t2.0, t2.1[0].path);
    assert t2.1 == [Record(Output, d.output)];
    assert r[0] == Record(Version, d.version);
    assert r[1..] == Section(Input, d.inputs) + (Section(NotFound, d.notFounds) + [Record(Output, d.output)]);
    LayoutSplit(d, r);
  }

  /** A list whose head is the version record and whose tail is the other
      three sections is the layout. */
  lemma LayoutSplit(d: DependencyInfo, r: seq<Record>)
    requires r != [] && r[0] == Record(Version, d.version)
    requires r[1..] == Section(Input, d.inputs) + (Section(NotFound, d.notFounds) + [Record(Output, d.output)])
    ensures Layout(d) == r
  {
    assert Layout(d) == [r[0]] + r[1..];
  }

  /** With the inputs in ascending order and the not-found set in its own
      order, every section of the file is in alphabetical order. */
  lemma SerializeSectionsAscending(d: DependencyInfo)
    requires Ascending(d.inputs) && StrictlySorted(d.notFounds)
    ensures var r := Serialize(d);
            forall i, j :: 0 <= i < j < |r| && r[i].op == r[j].op ==> !LexLess(r[j].path, r[i].path)
  {
    var r := Serialize(d);
    var a, b := |d.inputs|, |d.notFounds|;
    forall i, j | 0 <= i < j < |r| && r[i].op == r[j].op
      ensures !LexLess(r[j].path, r[i].path)
    {
      if 1 <= i <= a && 1 <= j <= a {
        assert r[i] == Section(Input, d.inputs)[i - 1];
        assert r[j] == Section(Input, d.inputs)[j - 1];
      } else if a < i <= a + b && a < j <= a + b {
        assert r[i] == Section(NotFound, d.notFounds)[i - 1 - a];
        assert r[j] == Section(NotFound, d.notFounds)[j - 1 - a];
        LexAsymmetric(r[i].path, r[j].path);
      }
    }
  }

  // ---------------------------------------------------------------------
  // The tracker

  class DependencyTracker {
    var active: bool
    var notFounds: seq<string>

    ghost predicate Valid()
      reads this
    {
      StrictlySorted(notFounds)
    }

    /** The tracker starts with no not-found paths; whether it is active is
        decided by the caller (an output path was given). */
    constructor(active: bool)
      ensures Valid()
      ensures this.active == active && notFounds == []
    {
      this.active := active;
      notFounds := [];
    }

    /** `logFileNotFound(std::string)`: an active tracker adds the path to
        its set, an inactive one does nothing. */
    method LogFileNotFound(path: string)
      requires Valid()
      modifies this
      ensures Valid() && active == old(active)
      ensures active ==> notFounds == Insert(old(notFounds), path)
      ensures !active ==> notFounds == old(notFounds)
    {
      if active {
        notFounds := Insert(notFounds, path);
      }
    }

    /** `logFileNotFound(const Twine &)`: the same, for the joined pieces. */
    method LogFileNotFoundTwine(pieces: seq<string>)
      requires Valid()
      modifies this
      ensures Valid() && active == old(active)
      ensures active ==> notFounds == Insert(old(notFounds), TwineStr(pieces))
      ensures !active ==> notFounds == old(notFounds)
    {
      if active {
        notFounds := Insert(notFounds, TwineStr(pieces));
      }
    }

    /** `write(version, inputs, output)`: the records of the file, none for
        an inactive tracker.  They are sorted by opcode and, within each
        section, alphabetically: reading them back gives the inputs sorted
        (a permutation of the caller's list) and the not-found set in its
        order. */
    method Write(version: string, inputs: seq<string>, output: string) returns (records: seq<Record>)
      requires Valid()
      ensures !active ==> records == []
      ensures active ==> Parse(records) == Some(DependencyInfo(version, SortPaths(inputs), notFounds, output))
      ensures active ==> forall i, j :: 0 <= i < j < |records| ==> records[i].op.Code() <= records[j].op.Code()
      ensures active ==> forall i, j :: 0 <= i < j < |records| && records[i].op == records[j].op ==>
                           !LexLess(records[j].path, records[i].path)
    {
      if !active {
        return [];
      }
      var d := DependencyInfo(version, SortPaths(inputs), notFounds, output);
      records := Serialize(d);
      ParseSerialize(d);
      SerializeCodesAscend(d);
      SerializeSectionsAscending(d);
    }
  }

  // ---------------------------------------------------------------------
  // Library search over an existence predicate

  /** `resolveDylibPath(path)`: what it finds exists and is one of the two
      names; nothing is found only when neither exists; `.dylib` wins over
      `.tbd`. */
  function ResolveDylibPath(path: string, onDisk: string -> bool): (r: Option<string>)
    ensures r.Some? ==> onDisk(r.value) && r.value in {path + ".dylib", path + ".tbd"}
    ensures r.None? <==> !onDisk(path + ".dylib") && !onDisk(path + ".tbd")
    ensures onDisk(path + ".dylib") ==> r == Some(path + ".dylib")
    ensures !onDisk(path + ".dylib") && onDisk(path + ".tbd") ==> r == Some(path + ".tbd")
  {
    if onDisk(path + ".dylib") then Some(path + ".dylib")
    else if onDisk(path + ".tbd") then Some(path + ".tbd")
    else None
  }

  /** `{root}/{name}.{extension}`, or `{root}/{name}` for the empty
      extension. */
  function Combination(root: string, name: string, ext: string): (path: string)
  {
    root + "/" + name + (if ext == "" then "" else "." + ext)
  }

  /** The combinations of one root, in the order of the extensions. */
  function PerRoot(root: string, name: string, exts: seq<string>): (c: seq<string>)
    ensures |c| == |exts|
    ensures forall k :: 0 <= k < |exts| ==> c[k] == Combination(root, name, exts[k])
  {
    if exts == [] then [] else [Combination(root, name, exts[0])] + PerRoot(root, name, exts[1..])
  }

  /** The first existing path of a candidate list. */
  function FirstExisting(c: seq<string>, onDisk: string -> bool): (r: Option<string>)
    ensures r.Some? ==> r.value in c && onDisk(r.value)
    ensures r.None? <==> forall x :: x in c ==> !onDisk(x)
  {
    if c == [] then None
    else if onDisk(c[0]) then Some(c[0])
    else FirstExisting(c[1..], onDisk)
  }

  /** The index that `FirstExisting` stops at: it exists, and no earlier
      candidate does. */
  lemma {:induction false} FirstExistingFirst(c: seq<string>, onDisk: string -> bool)
    requires FirstExisting(c, onDisk).Some?
    ensures exists n :: 0 <= n < |c| && c[n] == FirstExisting(c, onDisk).value &&
                        forall m :: 0 <= m < n ==> !onDisk(c[m])
  {
    if !onDisk(c[0]) {
      FirstExistingFirst(c[1..], onDisk);
      var n :| 0 <= n < |c[1..]| && c[1..][n] == FirstExisting(c, onDisk).value &&
                forall m :: 0 <= m < n ==> !onDisk(c[1..][m]);
      assert forall m :: 1 <= m < n + 1 ==> c[m] == c[1..][m - 1];
    } else {
      assert c[0] == FirstExisting(c, onDisk).value;
    }
  }

  /** Searching two lists one after the other is searching their
      concatenation. */
  lemma {:induction false} FirstExistingAppend(x: seq<string>, y: seq<string>, onDisk: string -> bool)
    ensures FirstExisting(x + y, onDisk) ==
            if FirstExisting(x, onDisk).Some? then FirstExisting(x, onDisk) else FirstExisting(y, onDisk)
    decreases |x|
  {
    if x == [] {
      assert x + y == y;
    } else {
      assert (x + y)[0] == x[0];
      assert (x + y)[1..] == x[1..] + y;
      FirstExistingAppend(x[1..], y, onDisk);
    }
  }

  /** `findPathCombination(name, roots, extensions)`: roots in the order
      given, and for each root the extensions in the order given; the
      first combination that exists is the answer. */
  function FindPathCombination(name: string, roots: seq<string>, exts: seq<string>, onDisk: string -> bool)
    : (r: Option<string>)
    ensures r.Some? ==> onDisk(r.value) && r.value in Candidates(name, roots, exts)
  {
    if roots == [] then None
    else
      var here := FirstExisting(PerRoot(roots[0], name, exts), onDisk);
      if here.Some? then here else FindPathCombination(name, roots[1..], exts, onDisk)
  }

  /** No combination strictly before `(i, k)` in search order exists. */
  ghost predicate NoneBefore(name: string, roots: seq<string>, exts: seq<string>, onDisk: string -> bool, i: int, k: int)
  {
    forall i', k' :: 0 <= i' < |roots| && 0 <= k' < |exts| && (i' < i || (i' == i && k' < k)) ==>
      !onDisk(Combination(roots[i'], name, exts[k']))
  }

  /** One root: a success is the first existing extension of that root. */
  lemma PerRootSearch(root: string, name: string, exts: seq<string>, onDisk: string -> bool)
    requires FirstExisting(PerRoot(root, name, exts), onDisk).Some?
    ensures exists k :: 0 <= k < |exts| &&
                        FirstExisting(PerRoot(root, name, exts), onDisk).value == Combination(root, name, exts[k]) &&
                        forall k' :: 0 <= k' < k ==> !onDisk(Combination(root, name, exts[k']))
  {
    FirstExistingFirst(PerRoot(root, name, exts), onDisk);
  }

  /** A failure means that no combination exists, and only then. */
  lemma {:induction false} FindPathCombinationNone(name: string, roots: seq<string>, exts: seq<string>, onDisk: string -> bool)
    ensures FindPathCombination(name, roots, exts, onDisk).None? <==>
              forall i, k :: 0 <= i < |roots| && 0 <= k < |exts| ==> !onDisk(Combination(roots[i], name, exts[k]))
    decreases |roots|
  {
    if roots != [] {
      var c := PerRoot(roots[0], name, exts);
      FindPathCombinationNone(name, roots[1..], exts, onDisk);
      if FirstExisting(c, onDisk).None? {
        forall k | 0 <= k < |exts|
          ensures !onDisk(Combination(roots[0], name, exts[k]))
        {
          assert c[k] in c;
        }
        NoneAfterFirstRoot(name, roots, exts, onDisk);
      } else {
        var x := FirstExisting(c, onDisk).value;
        var k :| 0 <= k < |c| && c[k] == x;
        assert onDisk(Combination(roots[0], name, exts[k]));
      }
    }
  }

  /** When the first root has no combination, no root has one exactly
      when none of the remaining roots has one. */
  lemma NoneAfterFirstRoot(name: string, roots: seq<string>, exts: seq<string>, onDisk: string -> bool)
    requires roots != []
    requires forall k :: 0 <= k < |exts| ==> !onDisk(Combination(roots[0], name, exts[k]))
    ensures (forall i, k :: 0 <= i < |roots| && 0 <= k < |exts| ==> !onDisk(Combination(roots[i], name, exts[k]))) <==>
            (forall i, k :: 0 <= i < |roots[1..]| && 0 <= k < |exts| ==> !onDisk(Combination(roots[1..][i], name, exts[k])))
  {
    forall i | 0 < i < |roots|
      ensures roots[i] == roots[1..][i - 1]
    {
    }
  }

  /** Prepending a root with no combination moves the search position one
      root on. */
  lemma NoneBeforeShift(name: string, roots: seq<string>, exts: seq<string>, onDisk: string -> bool, i: int, k: int)
    requires roots != []
    requires forall k' :: 0 <= k' < |exts| ==> !onDisk(Combination(roots[0], name, exts[k']))
    requires NoneBefore(name, roots[1..], exts, onDisk, i, k)
    ensures NoneBefore(name, roots, exts, onDisk, i + 1, k)
  {
    forall i', k' | 0 <= i' < |roots| && 0 <= k' < |exts| && (i' < i + 1 || (i' == i + 1 && k' < k))
      ensures !onDisk(Combination(roots[i'], name, exts[k']))
    {
      if i' > 0 {
        assert roots[i'] == roots[1..][i' - 1];
      }
    }
  }

  /** A success is an existing `{root}/{name}.{ext}` that no combination
      before it in search order beats. */
  lemma {:induction false} FindPathCombinationFound(name: string, roots: seq<string>, exts: seq<string>, onDisk: string -> bool)
    requires FindPathCombination(name, roots, exts, onDisk).Some?
    ensures onDisk(FindPathCombination(name, roots, exts, onDisk).value)
    ensures exists i, k :: 0 <= i < |roots| && 0 <= k < |exts| &&
                           FindPathCombination(name, roots, exts, onDisk).value == Combination(roots[i], name, exts[k]) &&
                           NoneBefore(name, roots, exts, onDisk, i, k)
    decreases |roots|
  {
    var r := FindPathCombination(name, roots, exts, onDisk);
    var c := PerRoot(roots[0], name, exts);
    var here := FirstExisting(c, onDisk);
    if here.Some? {
      PerRootSearch(roots[0], name, exts, onDisk);
      var k :| 0 <= k < |exts| && here.value == Combination(roots[0], name, exts[k]) &&
               forall k' :: 0 <= k' < k ==> !onDisk(Combination(roots[0], name, exts[k']));
      assert NoneBefore(name, roots, exts, onDisk, 0, k);
    } else {
      assert r == FindPathCombination(name, roots[1..], exts, onDisk);
      FindPathCombinationFound(name, roots[1..], exts, onDisk);
      var i, k :| 0 <= i < |roots[1..]| && 0 <= k < |exts| &&
                  r.value == Combination(roots[1..][i], name, exts[k]) &&
                  NoneBefore(name, roots[1..], exts, onDisk, i, k);
      forall k' | 0 <= k' < |exts|
        ensures !onDisk(Combination(roots[0], name, exts[k']))
      {
        assert c[k'] in c;
      }
      NoneBeforeShift(name, roots, exts, onDisk, i, k);
      assert roots[i + 1] == roots[1..][i];
    }
  }

  /** Every combination in search order, flattened into one list. */
  function Candidates(name: string, roots: seq<string>, exts: seq<string>): (c: seq<string>)
    ensures |c| == |roots| * |exts|
  {
    if roots == [] then [] else PerRoot(roots[0], name, exts) + Candidates(name, roots[1..], exts)
  }

  /** The nested search finds what a scan of the flattened candidate list
      finds. */
  lemma {:induction false} FindPathCombinationFlat(name: string, roots: seq<string>, exts: seq<string>, onDisk: string -> bool)
    ensures FindPathCombination(name, roots, exts, onDisk) == FirstExisting(Candidates(name, roots, exts), onDisk)
    decreases |roots|
  {
    if roots != [] {
      FirstExistingAppend(PerRoot(roots[0], name, exts), Candidates(name, roots[1..], exts), onDisk);
      FindPathCombinationFlat(name, roots[1..], exts, onDisk);
    }
  }

  /** With the default extension list `{""}` only `{root}/{name}` is
      tried, root by root. */
  lemma {:induction false} DefaultExtensions(name: string, roots: seq<string>)
    ensures |Candidates(name, roots, [""])| == |roots|
    ensures forall i :: 0 <= i < |roots| ==> Candidates(name, roots, [""])[i] == roots[i] + "/" + name
    decreases |roots|
  {
    if roots != [] {
      DefaultExtensions(name, roots[1..]);
      var head := PerRoot(roots[0], name, [""]);
      assert head[0] == Combination(roots[0], name, "");
      assert Combination(roots[0], name, "") == roots[0] + "/" + name + "";
      assert roots[0] + "/" + name + "" == roots[0] + "/" + name;
      assert |head| == 1;
      assert head == [roots[0] + "/" + name];
      var c := Candidates(name, roots, [""]);
      assert c == head + Candidates(name, roots[1..], [""]);
      forall i | 0 < i < |roots|
        ensures c[i] == roots[i] + "/" + name
      {
        assert c[i] == Candidates(name, roots[1..], [""])[i - 1];
        assert roots[1..][i - 1] == roots[i];
      }
    }
  }

  /** Two roots, two extensions, and only the second root's `.tbd` stub on
      disk: the search finds that stub. */
  lemma FindPathExample()
    ensures FindPathCombination("libFoo", ["/sysroot", "/usr/lib"], ["dylib", "tbd"],
                                p => p == "/usr/lib/libFoo.tbd") == Some("/usr/lib/libFoo.tbd")
  {
    var onDisk := (p: string) => p == "/usr/lib/libFoo.tbd";
    var roots, exts := ["/sysroot", "/usr/lib"], ["dylib", "tbd"];
    var target := "/usr/lib/libFoo.tbd";
    forall e | e in exts
      ensures !onDisk(Combination("/sysroot", "libFoo", e))
    {
      var x := Combination("/sysroot", "libFoo", e);
      assert x[1] == 's' != target[1];
    }
    var dylib := Combination("/usr/lib", "libFoo", "dylib");
    assert |dylib| == |target| + 2;
    var tbd := Combination("/usr/lib", "libFoo", "tbd");
    assert tbd == "/usr/lib" + "/" + "libFoo" + ("." + "tbd");
    assert tbd == target;
    var first := PerRoot("/sysroot", "libFoo", exts);
    assert FirstExisting(first, onDisk).None? by {
      forall x | x in first ensures !onDisk(x) {
        var k :| 0 <= k < |first| && first[k] == x;
        assert exts[k] in exts;
      }
    }
    var second := PerRoot("/usr/lib", "libFoo", exts);
    assert second[0] == dylib && second[1] == tbd;
    assert FirstExisting(second, onDisk) == Some(target) by {
      assert second[1..][0] == tbd;
    }
    assert roots[1..] == ["/usr/lib"];
  }
}

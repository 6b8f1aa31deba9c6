/**
 * Courses and the course catalog: the parsing of 4-line course records, the
 * short-name table and the requirement index that a load builds.
 */
module Courses {
  import opened Wrappers
  import opened JavaText
  import opened CoreRequirements
  import opened SeqFacts

  /**
   * A course as loaded from the catalog. The getters of the Java class are the
   * fields. `serial` is the position of the record in the load that created the
   * course: it stands for the identity of the Java object, so that two records
   * with the same text are still two different courses.
   */
  datatype Course = Course(department: string, number: int, name: string, credits: int,
                           requirementsMet: seq<Req>, serial: nat)
  {
    /** getShortName(): the department, one space, then the number in decimal, e.g. "CS 64". */
    function ShortName(): string {
      department + " " + IntToString(number)
    }

    /** toString(): "DEPARTMENT NUMBER: NAME(CREDITS)". */
    function ToString(): string {
      department + " " + IntToString(number) + ": " + name + "(" + IntToString(credits) + ")"
    }
  }

  /**
   * The rendering of a course starts with its short name and ": ", and ends
   * with the credits in parentheses, which parseInt reads back.
   */
  lemma CourseToStringShape(c: Course)
    requires MinInt <= c.credits <= MaxInt
    ensures var s, n, y := c.ToString(), c.ShortName(), IntToString(c.credits);
      && |s| == |n| + 2 + |c.name| + 1 + |y| + 1
      && s[..|n| + 2] == n + ": "
      && s[|n| + 2..|n| + 2 + |c.name|] == c.name
      && s[|s| - |y| - 2] == '(' && s[|s| - 1] == ')'
      && ParseInt(s[|s| - |y| - 1..|s| - 1]) == Some(c.credits)
  {
    var s, n, y := c.ToString(), c.ShortName(), IntToString(c.credits);
    var head, tail := n + ": ", "(" + y + ")";
    AppendAssoc(head + c.name, "(", y);
    AppendAssoc(head + c.name, "(" + y, ")");
    assert s == head + c.name + tail;
    ConcatSlices(head, c.name, tail);
    assert s[|s| - |y| - 1..|s| - 1] == tail[1..|tail| - 1] == y;
    ParseIntToString(c.credits);
  }

  /** What every course produced by a load satisfies: a one-word department and int-sized numbers. */
  predicate LoadedCourse(c: Course) {
    && ' ' !in c.department
    && MinInt <= c.number <= MaxInt
    && MinInt <= c.credits <= MaxInt
  }

  // ----------------------------------------------------------------------
  // Parsing one record

  /**
   * Line 1 of a record, "DEPARTMENT NUMBER": split on single spaces, the first
   * piece is the department and the second must parse as an int. None stands
   * for the exception the Java code raises on a short or non-numeric line.
   */
  function ParseCourseLine(line: string): (r: Option<(string, int)>)
    ensures r.Some? ==> ' ' !in r.value.0 && MinInt <= r.value.1 <= MaxInt
  {
    var parts := Split(line, " ");
    SplitExcludesSeparator(line, ' ');
    if |parts| < 2 then None
    else match ParseInt(parts[1])
      case None => None
      case Some(n) =>
        assert parts[0] in parts;
        Some((parts[0], n))
  }

  /** Line 4 of a record, already split on ", ": each code must name a category. */
  function ParseRequirements(codes: seq<string>): (r: Option<seq<Req>>)
    ensures r.Some? ==> |r.value| == |codes|
    ensures r.Some? ==> forall i :: 0 <= i < |codes| ==> Name(r.value[i]) == codes[i]
    ensures r.None? ==> exists i :: 0 <= i < |codes| && ValueOf(codes[i]).None?
  {
    if codes == [] then Some([])
    else match (ParseRequirements(codes[..|codes| - 1]), ValueOf(codes[|codes| - 1]))
      case (Some(init), Some(last)) => Some(init + [last])
      case (None, _) => None
      case (_, None) => None
  }

  /** One 4-line record, whose course gets the given serial. */
  function ParseRecord(block: seq<string>, serial: nat): (r: Option<Course>)
    requires |block| == 4
    ensures r.Some? ==> LoadedCourse(r.value) && r.value.serial == serial && r.value.name == block[1]
  {
    var head := ParseCourseLine(block[0]);
    var credits := ParseInt(block[2]);
    var reqs := ParseRequirements(Split(block[3], ", "));
    if head.Some? && credits.Some? && reqs.Some? then
      Some(Course(head.value.0, head.value.1, block[1], credits.value, reqs.value, serial))
    else None
  }

  /** The four lines of record number i. */
  function RecordLines(lines: seq<string>, i: nat): (block: seq<string>)
    requires 4 * i + 4 <= |lines|
    ensures |block| == 4
  {
    [lines[4 * i], lines[4 * i + 1], lines[4 * i + 2], lines[4 * i + 3]]
  }

  /**
   * What a load of `lines` produces: the courses rs of the records it read,
   * record i (lines 4i to 4i+3) giving rs[i] with serial i, and whether it
   * reached the end of the file. It stops at the first short or unparsable
   * record, so ok holds exactly when every line was consumed, four per record.
   */
  predicate LoadedFrom(lines: seq<string>, rs: seq<Course>, ok: bool) {
    && ReadPrefix(lines, rs)
    && (ok <==> 4 * |rs| == |lines|)
    && (!ok && 4 * |rs| + 4 <= |lines| ==> ParseRecord(RecordLines(lines, |rs|), |rs|).None?)
  }

  /** The first |rs| records of lines parse, record i giving rs[i]. */
  predicate ReadPrefix(lines: seq<string>, rs: seq<Course>) {
    && 4 * |rs| <= |lines|
    && (forall i :: 0 <= i < |rs| ==> ParseRecord(RecordLines(lines, i), i) == Some(rs[i]))
  }

  /** One more parsed record extends the parsed prefix. */
  lemma {:induction false} ReadPrefixExtend(lines: seq<string>, rs: seq<Course>, c: Course)
    requires ReadPrefix(lines, rs) && 4 * |rs| + 4 <= |lines|
    requires ParseRecord(RecordLines(lines, |rs|), |rs|) == Some(c)
    ensures ReadPrefix(lines, rs + [c])
  {
    var rs' := rs + [c];
    forall i | 0 <= i < |rs'| ensures ParseRecord(RecordLines(lines, i), i) == Some(rs'[i]) {
      if i < |rs| {
        assert rs'[i] == rs[i] && ParseRecord(RecordLines(lines, i), i) == Some(rs[i]);
      } else {
        assert i == |rs| && rs'[i] == c;
      }
    }
  }

  /** A load's outcome is determined by its lines: LoadedFrom describes one result only. */
  lemma LoadedFromUnique(lines: seq<string>, rs: seq<Course>, ok: bool, rs': seq<Course>, ok': bool)
    requires LoadedFrom(lines, rs, ok) && LoadedFrom(lines, rs', ok')
    ensures rs == rs' && ok == ok'
  {
    assert |rs| == |rs'|;
    forall i | 0 <= i < |rs| ensures rs[i] == rs'[i] {
      assert Some(rs[i]) == ParseRecord(RecordLines(lines, i), i) == Some(rs'[i]);
    }
  }

  /** The short name of a loaded course splits back into its department and number. */
  lemma ShortNameParses(c: Course)
    requires LoadedCourse(c)
    ensures ParseCourseLine(c.ShortName()) == Some((c.department, c.number))
  {
    var t := IntToString(c.number);
    IntToStringNoSpace(c.number);
    var ws := [c.department, t];
    assert Join(ws, " ") == c.ShortName() by {
      assert Join(ws[1..], " ") == t;
    }
    SplitJoin(ws, " ");
    ParseIntToString(c.number);
  }

  /** The codes of a requirement list, in order. */
  function Names(reqs: seq<Req>): (ns: seq<string>)
    ensures |ns| == |reqs|
  {
    seq(|reqs|, i requires 0 <= i < |reqs| => Name(reqs[i]))
  }

  /** Line 4 of a record listing reqs: the codes separated by ", ". */
  function RequirementsLine(reqs: seq<Req>): string
    requires reqs != []
  {
    Join(Names(reqs), ", ")
  }

  /** Line 4 written for a non-empty requirement list parses back into that list. */
  lemma RequirementsLineParses(reqs: seq<Req>)
    requires reqs != []
    ensures ParseRequirements(Split(RequirementsLine(reqs), ", ")) == Some(reqs)
  {
    var ns := Names(reqs);
    forall i | 0 <= i < |ns| ensures ", "[0] !in ns[i] && ValueOf(ns[i]) == Some(reqs[i]) {
      NameIsOneWord(reqs[i]);
      ValueOfName(reqs[i]);
    }
    NameIsOneWord(reqs[|reqs| - 1]);
    SplitJoin(ns, ", ");
    assert Split(RequirementsLine(reqs), ", ") == ns;
    var r := ParseRequirements(ns);
    assert |r.value| == |reqs|;
    forall i | 0 <= i < |reqs| ensures r.value[i] == reqs[i] {
      ValueOfName(r.value[i]);
      assert Name(r.value[i]) == ns[i];
    }
    assert r.value == reqs;
  }

  /** The four lines of a catalog record describing course c. */
  function RecordOf(c: Course): (block: seq<string>)
    requires c.requirementsMet != []
    ensures |block| == 4
  {
    [c.ShortName(), c.name, IntToString(c.credits), RequirementsLine(c.requirementsMet)]
  }

  /**
   * A loaded course with at least one code, written back as a record, parses
   * into the same course. A record with an empty line 4 never parses: "" is
   * no category code.
   */
  lemma RecordRoundTrip(c: Course)
    requires LoadedCourse(c) && c.requirementsMet != []
    ensures ParseRecord(RecordOf(c), c.serial) == Some(c)
  {
    ShortNameParses(c);
    ParseIntToString(c.credits);
    RequirementsLineParses(c.requirementsMet);
  }

  /** A record whose line 4 is empty does not parse. */
  lemma EmptyRequirementsLineFails(block: seq<string>, serial: nat)
    requires |block| == 4 && block[3] == ""
    ensures ParseRecord(block, serial).None?
  {
    assert Fields("", ", ") == [""] by { assert "" + "" == ""; }
    assert Split("", ", ") == [""];
    assert ValueOf("").None?;
  }

  // ----------------------------------------------------------------------
  // The tables a load builds, as functions of the courses loaded so far

  /** The number of times cr occurs in reqs. */
  function Count(cr: Req, reqs: seq<Req>): (n: nat)
    ensures n <= |reqs|
  {
    if reqs == [] then 0
    else Count(cr, reqs[..|reqs| - 1]) + (if reqs[|reqs| - 1] == cr then 1 else 0)
  }

  /** n copies of c. */
  function Repeat(c: Course, n: nat): (r: seq<Course>)
    ensures |r| == n
  {
    if n == 0 then [] else Repeat(c, n - 1) + [c]
  }

  /** Hashtable.get on the short-name table, None standing for null. */
  function Lookup(table: map<string, Course>, shortName: string): Option<Course> {
    if shortName in table then Some(table[shortName]) else None
  }

  /** The list under cr in the index, or the empty list when there is no entry. */
  function Get(index: map<Req, seq<Course>>, cr: Req): seq<Course> {
    if cr in index then index[cr] else []
  }

  /** The map after putting vs[i] under ks[i] for each i in turn: a later put replaces an earlier one. */
  function PutAll<K, V>(ks: seq<K>, vs: seq<V>): map<K, V>
    requires |ks| == |vs|
  {
    if ks == [] then map[]
    else PutAll(ks[..|ks| - 1], vs[..|vs| - 1])[ks[|ks| - 1] := vs[|vs| - 1]]
  }

  /** The short names of the courses, in order. */
  function ShortNames(rs: seq<Course>): (ks: seq<string>)
    ensures |ks| == |rs|
  {
    if rs == [] then [] else ShortNames(rs[..|rs| - 1]) + [rs[|rs| - 1].ShortName()]
  }

  /** The short-name table after putting each course in turn under its short name. */
  function TableOf(rs: seq<Course>): map<string, Course> {
    PutAll(ShortNames(rs), rs)
  }

  /** Appending c to the list of every code in reqs, one code at a time, creating a list on first use. */
  function AddToIndex(index: map<Req, seq<Course>>, c: Course, reqs: seq<Req>): map<Req, seq<Course>> {
    if reqs == [] then index
    else
      var m := AddToIndex(index, c, reqs[..|reqs| - 1]);
      var cr := reqs[|reqs| - 1];
      m[cr := Get(m, cr) + [c]]
  }

  /** The requirement index after adding each course in turn. */
  function IndexOf(rs: seq<Course>): map<Req, seq<Course>> {
    if rs == [] then map[]
    else AddToIndex(IndexOf(rs[..|rs| - 1]), rs[|rs| - 1], rs[|rs| - 1].requirementsMet)
  }

  /**
   * The reference listing for cr: the courses in file order, each repeated as
   * many times as it lists cr.
   */
  function Listing(rs: seq<Course>, cr: Req): seq<Course> {
    if rs == [] then []
    else Listing(rs[..|rs| - 1], cr) + Repeat(rs[|rs| - 1], Count(cr, rs[|rs| - 1].requirementsMet))
  }

  lemma {:induction false} CountPositive(cr: Req, reqs: seq<Req>)
    ensures Count(cr, reqs) > 0 <==> cr in reqs
  {
    if reqs != [] {
      CountPositive(cr, reqs[..|reqs| - 1]);
      assert reqs == reqs[..|reqs| - 1] + [reqs[|reqs| - 1]];
    }
  }

  lemma {:induction false} RepeatMembers(c: Course, n: nat, x: Course)
    ensures x in Repeat(c, n) <==> n > 0 && x == c
  {
    if n > 0 {
      RepeatMembers(c, n - 1, x);
    }
  }

  /** Adding one course appends it to the list of each code it names, once per occurrence. */
  lemma {:induction false} AddToIndexSpec(index: map<Req, seq<Course>>, c: Course, reqs: seq<Req>, cr: Req)
    ensures cr in AddToIndex(index, c, reqs) <==> cr in index || cr in reqs
    ensures Get(AddToIndex(index, c, reqs), cr) == Get(index, cr) + Repeat(c, Count(cr, reqs))
  {
    if reqs != [] {
      var init, last := reqs[..|reqs| - 1], reqs[|reqs| - 1];
      AddToIndexSpec(index, c, init, cr);
      assert reqs == init + [last];
      var m := AddToIndex(index, c, init);
      assert AddToIndex(index, c, reqs) == m[last := Get(m, last) + [c]];
      assert Get(AddToIndex(index, c, reqs), cr) == if last == cr then Get(m, cr) + [c] else Get(m, cr);
      if last == cr {
        assert Count(cr, reqs) == Count(cr, init) + 1;
        assert Repeat(c, Count(cr, reqs)) == Repeat(c, Count(cr, init)) + [c];
      } else {
        assert Count(cr, reqs) == Count(cr, init);
      }
    }
  }

  /**
   * The index has an entry for cr exactly when some loaded course lists cr,
   * and that entry is the reference listing: file order, once per occurrence.
   */
  lemma {:induction false} IndexOfSpec(rs: seq<Course>, cr: Req)
    ensures cr in IndexOf(rs) <==> exists i :: 0 <= i < |rs| && cr in rs[i].requirementsMet
    ensures Get(IndexOf(rs), cr) == Listing(rs, cr)
  {
    if rs != [] {
      var init, last := rs[..|rs| - 1], rs[|rs| - 1];
      IndexOfSpec(init, cr);
      AddToIndexSpec(IndexOf(init), last, last.requirementsMet, cr);
      if cr in IndexOf(rs) && cr !in last.requirementsMet {
        var i :| 0 <= i < |init| && cr in init[i].requirementsMet;
        assert rs[i] == init[i];
      }
      if exists i :: 0 <= i < |rs| && cr in rs[i].requirementsMet {
        var i :| 0 <= i < |rs| && cr in rs[i].requirementsMet;
        if i < |init| {
          assert init[i] == rs[i];
        }
      }
    }
  }

  /** Index soundness and completeness: a course is listed under cr exactly when it was loaded and lists cr. */
  lemma {:induction false} ListingMembers(rs: seq<Course>, cr: Req, c: Course)
    ensures c in Listing(rs, cr) <==> c in rs && cr in c.requirementsMet
  {
    if rs != [] {
      var init, last := rs[..|rs| - 1], rs[|rs| - 1];
      ListingMembers(init, cr, c);
      RepeatMembers(last, Count(cr, last.requirementsMet), c);
      CountPositive(cr, last.requirementsMet);
      assert rs == init + [last];
    }
  }

  /** A listing is non-empty exactly when some loaded course lists the category. */
  lemma ListingNonEmpty(rs: seq<Course>, cr: Req)
    ensures Listing(rs, cr) != [] <==> exists i :: 0 <= i < |rs| && cr in rs[i].requirementsMet
  {
    if Listing(rs, cr) != [] {
      ListingMembers(rs, cr, Listing(rs, cr)[0]);
    }
    if exists i :: 0 <= i < |rs| && cr in rs[i].requirementsMet {
      var i :| 0 <= i < |rs| && cr in rs[i].requirementsMet;
      ListingMembers(rs, cr, rs[i]);
    }
  }

  /** When serials increase through the file, every listing keeps file order. */
  lemma {:induction false} ListingInFileOrder(rs: seq<Course>, cr: Req)
    requires forall i, j :: 0 <= i < j < |rs| ==> rs[i].serial < rs[j].serial
    ensures forall i, j :: 0 <= i < j < |Listing(rs, cr)| ==> Listing(rs, cr)[i].serial <= Listing(rs, cr)[j].serial
  {
    if rs != [] {
      var init, last := rs[..|rs| - 1], rs[|rs| - 1];
      ListingInFileOrder(init, cr);
      var front, back := Listing(init, cr), Repeat(last, Count(cr, last.requirementsMet));
      var l := Listing(rs, cr);
      assert l == front + back;
      forall i, j | 0 <= i < j < |l| ensures l[i].serial <= l[j].serial {
        if j >= |front| {
          RepeatMembers(last, Count(cr, last.requirementsMet), l[j]);
          assert l[j] == back[j - |front|];
          if i >= |front| {
            assert l[i] == back[i - |front|];
            RepeatMembers(last, Count(cr, last.requirementsMet), l[i]);
          } else {
            assert l[i] in front;
            ListingMembers(init, cr, l[i]);
            var k :| 0 <= k < |init| && init[k] == l[i];
            assert rs[k] == l[i];
          }
        }
      }
    }
  }

  /** The put map holds k exactly when some ks[i] is k, and its value comes from the last such i. */
  lemma {:induction false} PutAllSpec<K, V>(ks: seq<K>, vs: seq<V>, k: K)
    requires |ks| == |vs|
    ensures k in PutAll(ks, vs) <==> k in ks
    ensures k in PutAll(ks, vs) ==>
      exists i :: 0 <= i < |ks| && ks[i] == k && vs[i] == PutAll(ks, vs)[k] && k !in ks[i + 1..]
  {
    if ks != [] {
      var n := |ks| - 1;
      PutAllSpec(ks[..n], vs[..n], k);
      assert ks == ks[..n] + [ks[n]];
      if ks[n] == k {
        assert ks[n + 1..] == [];
      } else if k in PutAll(ks[..n], vs[..n]) {
        var i :| 0 <= i < n && ks[..n][i] == k && vs[..n][i] == PutAll(ks[..n], vs[..n])[k] && k !in ks[..n][i + 1..];
        assert ks[i + 1..] == ks[..n][i + 1..] + [ks[n]];
      }
    }
  }

  lemma {:induction false} ShortNamesAt(rs: seq<Course>, i: nat)
    requires i < |rs|
    ensures ShortNames(rs)[i] == rs[i].ShortName()
  {
    if i < |rs| - 1 {
      ShortNamesAt(rs[..|rs| - 1], i);
    }
  }

  /**
   * The short-name table holds k exactly when some loaded course has short
   * name k, and its entry is the LAST such course: later records win.
   */
  lemma TableOfSpec(rs: seq<Course>, k: string)
    ensures k in TableOf(rs) <==> exists i :: 0 <= i < |rs| && rs[i].ShortName() == k
    ensures k in TableOf(rs) ==>
      exists i :: 0 <= i < |rs| && rs[i] == TableOf(rs)[k] && rs[i].ShortName() == k &&
        forall j :: i < j < |rs| ==> rs[j].ShortName() != k
  {
    var ks := ShortNames(rs);
    PutAllSpec(ks, rs, k);
    forall i | 0 <= i < |rs| ensures ks[i] == rs[i].ShortName() {
      ShortNamesAt(rs, i);
    }
    if k in TableOf(rs) {
      var i :| 0 <= i < |ks| && ks[i] == k && rs[i] == PutAll(ks, rs)[k] && k !in ks[i + 1..];
      forall j | i < j < |rs| ensures rs[j].ShortName() != k {
        assert ks[j] == ks[i + 1..][j - i - 1];
      }
    }
  }

  /**
   * A short name loaded twice: the table keeps only the later course, while the
   * index still lists the earlier one under every code it named.
   */
  lemma StaleIndexEntry(a: Course, b: Course, cr: Req)
    requires a.ShortName() == b.ShortName() && a.serial != b.serial && cr in a.requirementsMet
    ensures TableOf([a, b])[a.ShortName()] == b
    ensures a in Get(IndexOf([a, b]), cr)
  {
    IndexOfSpec([a, b], cr);
    ListingMembers([a, b], cr, a);
    assert [a, b][..1] == [a];
  }

  // ----------------------------------------------------------------------
  // The catalog object

  /**
   * The catalog's tables are the ones derived from the loaded courses rs,
   * course i carrying serial i.
   */
  ghost predicate Tables(table: map<string, Course>, index: map<Req, seq<Course>>, rs: seq<Course>) {
    && table == TableOf(rs)
    && index == IndexOf(rs)
    && (forall i :: 0 <= i < |rs| ==> rs[i].serial == i && LoadedCourse(rs[i]))
  }

  /** Putting c under its short name and adding its index entries keeps the tables derived from rs + [c]. */
  lemma {:induction false} TablesExtend(table: map<string, Course>, index: map<Req, seq<Course>>, rs: seq<Course>, c: Course)
    requires Tables(table, index, rs) && c.serial == |rs| && LoadedCourse(c)
    ensures Tables(table[c.ShortName() := c], AddToIndex(index, c, c.requirementsMet), rs + [c])
  {
    var rs' := rs + [c];
    assert rs'[..|rs|] == rs;
    assert TableOf(rs') == TableOf(rs)[c.ShortName() := c];
    assert IndexOf(rs') == AddToIndex(IndexOf(rs), c, c.requirementsMet);
  }

  /**
   * Reading one 4-line record: the course line, the name, the credits and the
   * requirement codes, each code looked up in turn. Any failure gives None.
   */
  method ReadRecord(block: seq<string>, serial: nat) returns (r: Option<Course>)
    requires |block| == 4
    ensures r == ParseRecord(block, serial)
  {
    var head := ParseCourseLine(block[0]);
    if head.None? {
      return None;
    }
    var credits := ParseInt(block[2]);
    if credits.None? {
      return None;
    }
    var codes := Split(block[3], ", ");
    var reqs: seq<Req> := [];
    var i := 0;
    while i < |codes|
      invariant 0 <= i <= |codes|
      invariant ParseRequirements(codes[..i]) == Some(reqs)
    {
      var cr := ValueOf(codes[i]);
      if cr.None? {
        assert ParseRequirements(codes).None? by {
          if ParseRequirements(codes).Some? {
            ValueOfName(ParseRequirements(codes).value[i]);
          }
        }
        return None;
      }
      assert codes[..i + 1][..i] == codes[..i];
      reqs := reqs + [cr.value];
      i := i + 1;
    }
    assert codes[..i] == codes;
    r := Some(Course(head.value.0, head.value.1, block[1], credits.value, reqs, serial));
  }

  /**
   * The loaded catalog: the static Hashtables of the Java class turned into the
   * fields of one object. `records` is the list of courses of the last load, in
   * file order, from which both tables are derived.
   */
  class Catalog {
    var courses: map<string, Course>
    var coursesMeetingRequirements: map<Req, seq<Course>>
    var loaded: bool
    ghost var records: seq<Course>

    ghost predicate Valid()
      reads this
    {
      && Tables(courses, coursesMeetingRequirements, records)
      && (!loaded ==> records == [])
    }

    /** A catalog before any load. */
    constructor ()
      ensures Valid() && !loaded && records == []
    {
      courses := map[];
      coursesMeetingRequirements := map[];
      loaded := false;
      records := [];
    }

    /**
     * loadCourses: both tables are rebuilt from empty, then filled record by
     * record. A record that does not parse ends the load with ok false, keeping
     * what the earlier records put in the tables.
     */
    method LoadCourses(lines: seq<string>) returns (ok: bool)
      modifies this
      ensures Valid() && loaded
      ensures LoadedFrom(lines, records, ok)
      ensures courses == TableOf(records) && coursesMeetingRequirements == IndexOf(records)
    {
      courses := map[];
      coursesMeetingRequirements := map[];
      loaded := true;
      records := [];
      var p, n := 0, 0;
      while p < |lines|
        invariant 0 <= p <= |lines| && p == 4 * n && n == |records|
        invariant Valid() && loaded
        invariant ReadPrefix(lines, records)
        decreases |lines| - p
      {
        if |lines| - p < 4 {
          return false;
        }
        var course := ReadRecord(RecordLines(lines, n), n);
        if course.None? {
          return false;
        }
        ReadPrefixExtend(lines, records, course.value);
        Add(course.value);
        p, n := p + 4, n + 1;
      }
      ok := true;
    }

    /** The put into the short-name table and the index updates for one more loaded course. */
    method Add(course: Course)
      requires Valid() && loaded && course.serial == |records| && LoadedCourse(course)
      modifies this
      ensures Valid() && loaded && records == old(records) + [course]
    {
      TablesExtend(courses, coursesMeetingRequirements, records, course);
      courses := courses[course.ShortName() := course];
      IndexCourse(course);
      records := records + [course];
    }

    /** Appends course to the index list of each code it lists, in order, creating lists on first use. */
    method IndexCourse(course: Course)
      modifies this
      ensures coursesMeetingRequirements == AddToIndex(old(coursesMeetingRequirements), course, course.requirementsMet)
      ensures courses == old(courses) && records == old(records) && loaded == old(loaded)
    {
      var reqs := course.requirementsMet;
      var j := 0;
      while j < |reqs|
        invariant 0 <= j <= |reqs|
        invariant courses == old(courses) && records == old(records) && loaded == old(loaded)
        invariant coursesMeetingRequirements == AddToIndex(old(coursesMeetingRequirements), course, reqs[..j])
      {
        var cr := reqs[j];
        var courseList: seq<Course>;
        if cr in coursesMeetingRequirements {
          courseList := coursesMeetingRequirements[cr] + [course];
        } else {
          courseList := [course];
        }
        assert courseList == Get(coursesMeetingRequirements, cr) + [course];
        assert reqs[..j + 1][..j] == reqs[..j];
        coursesMeetingRequirements := coursesMeetingRequirements[cr := courseList];
        j := j + 1;
      }
      assert reqs[..j] == reqs;
    }

    /**
     * getCourse: the course loaded under shortName, or None (null) when no
     * loaded course has that short name. Reading does not change the catalog.
     */
    function GetCourse(shortName: string): (r: Option<Course>)
      reads this
      requires loaded && Valid()
      ensures r.Some? <==> exists i :: 0 <= i < |records| && records[i].ShortName() == shortName
      ensures r.Some? ==> r.value.ShortName() == shortName
      ensures r.Some? ==>
        exists i :: 0 <= i < |records| && records[i] == r.value &&
          forall j :: i < j < |records| ==> records[j].ShortName() != shortName
    {
      TableOfSpec(records, shortName);
      Lookup(courses, shortName)
    }

    /**
     * getCoursesMeetingRequirements: the index list for cr. None (null) for a
     * null argument and for a category no loaded course lists; otherwise the
     * non-empty list of the courses listing cr, in file order.
     */
    function GetCoursesMeetingRequirements(cr: Option<Req>): (r: Option<seq<Course>>)
      reads this
      requires loaded && Valid()
      ensures r.Some? <==> cr.Some? && exists i :: 0 <= i < |records| && cr.value in records[i].requirementsMet
      ensures r.Some? ==> r.value == Listing(records, cr.value) && r.value != []
    {
      if cr.Some? then
        IndexOfSpec(records, cr.value);
        ListingNonEmpty(records, cr.value);
        if cr.value in coursesMeetingRequirements then
          Some(coursesMeetingRequirements[cr.value])
        else None
      else None
    }
  }

  /** Looking a course up again by its own short name finds the same course. */
  lemma LookupStable(cat: Catalog, shortName: string)
    requires cat.loaded && cat.Valid()
    requires cat.GetCourse(shortName).Some?
    ensures cat.GetCourse(cat.GetCourse(shortName).value.ShortName()) == cat.GetCourse(shortName)
  {
  }
}

/**
 * Transcripts: the parse of a transcript file against the loaded catalog, the
 * credits earned per requirement category, the course recommendations and the
 * printed form.
 */
module Transcripts {
  import opened Wrappers
  import opened JavaText
  import opened CoreRequirements
  import opened Courses
  import opened GradeRecords
  import opened SeqFacts

  /**
   * Why a transcript could not be built: the file ended inside a header or a
   * block, or a year was not an int (Malformed), or a found course carried an
   * illegal grade (the IllegalArgumentException of the grade record).
   */
  datatype TranscriptError = Malformed | InvalidGrade(error: GradeError)

  /** What the constructor stores: the header (null until read) and the grade records. */
  datatype TranscriptData = TranscriptData(id: Option<string>, firstName: Option<string>,
                                           lastName: Option<string>, records: seq<GradeRecord>)

  // ----------------------------------------------------------------------
  // Parsing: a 3-line header, then 3-line blocks "DEPARTMENT NUMBER", YEAR, GRADE

  /** The three lines of block i, which follow the header. */
  function BlockAt(lines: seq<string>, i: nat): (block: seq<string>)
    requires 6 + 3 * i <= |lines|
    ensures |block| == 3
  {
    [lines[3 + 3 * i], lines[4 + 3 * i], lines[5 + 3 * i]]
  }

  /** A block the constructor gets past: its year parses, and its grade is legal if its course is found. */
  predicate BlockAccepted(table: map<string, Course>, block: seq<string>)
    requires |block| == 3
  {
    ParseInt(block[1]).Some? && (block[0] in table ==> IsLegalGrade(block[2]))
  }

  /**
   * One block: the course is looked up, the year parsed and the grade read;
   * a found course gives a grade record, a missing one gives nothing and its
   * grade is never checked.
   */
  function ReadBlock(table: map<string, Course>, block: seq<string>): (r: Result<Option<GradeRecord>, TranscriptError>)
    requires |block| == 3
  {
    var course := Lookup(table, block[0]);
    var year := ParseInt(block[1]);
    if year.None? then Failure(Malformed)
    else if course.None? then Success(None)
    else match NewGradeRecord(course.value, year.value, block[2])
      case Failure(e) => Failure(InvalidGrade(e))
      case Success(gr) => Success(Some(gr))
  }

  /** The outcome of each of the first k blocks, read on its own. */
  function Outcomes(table: map<string, Course>, lines: seq<string>, k: nat): (outs: seq<Result<Option<GradeRecord>, TranscriptError>>)
    requires 3 + 3 * k <= |lines|
    ensures |outs| == k
  {
    seq(k, i requires 0 <= i < k => ReadBlock(table, BlockAt(lines, i)))
  }

  /**
   * Blocks read one after another: the records the found courses give, in
   * order, or the error of the first block that fails (nothing after it is read).
   */
  function ReadAll(outs: seq<Result<Option<GradeRecord>, TranscriptError>>): Result<seq<GradeRecord>, TranscriptError> {
    if outs == [] then Success([])
    else match ReadAll(outs[..|outs| - 1])
      case Failure(e) => Failure(e)
      case Success(rs) =>
        match outs[|outs| - 1]
        case Failure(e) => Failure(e)
        case Success(None) => Success(rs)
        case Success(Some(gr)) => Success(rs + [gr])
  }

  /**
   * The transcript constructor as a function of the lines and the short-name
   * table. An empty file leaves every field null; otherwise the header must be
   * complete, and so must the last block.
   */
  function ParseTranscript(table: map<string, Course>, lines: seq<string>): Result<TranscriptData, TranscriptError> {
    if lines == [] then Success(TranscriptData(None, None, None, []))
    else if |lines| < 3 then Failure(Malformed)
    else
      var k := (|lines| - 3) / 3;
      match ReadAll(Outcomes(table, lines, k))
      case Failure(e) => Failure(e)
      case Success(rs) =>
        if 3 + 3 * k < |lines| then Failure(Malformed)
        else Success(TranscriptData(Some(lines[0]), Some(lines[1]), Some(lines[2]), rs))
  }

  /** One more block read extends the outcomes by that block's outcome. */
  lemma OutcomesExtend(table: map<string, Course>, lines: seq<string>, k: nat)
    requires 6 + 3 * k <= |lines|
    ensures Outcomes(table, lines, k + 1) == Outcomes(table, lines, k) + [ReadBlock(table, BlockAt(lines, k))]
  {
  }

  /** Reading succeeds exactly when every block succeeds on its own. */
  lemma {:induction false} ReadAllSuccess(outs: seq<Result<Option<GradeRecord>, TranscriptError>>)
    ensures ReadAll(outs).Success? <==> forall i :: 0 <= i < |outs| ==> outs[i].Success?
  {
    if outs != [] {
      var init := outs[..|outs| - 1];
      ReadAllSuccess(init);
      if ReadAll(outs).Success? {
        forall i | 0 <= i < |outs| ensures outs[i].Success? {
          if i < |init| {
            assert outs[i] == init[i];
          }
        }
      }
    }
  }

  /** A failed read stops at a block: every earlier block succeeds and that block's error is the result. */
  lemma {:induction false} ReadAllFailure(outs: seq<Result<Option<GradeRecord>, TranscriptError>>)
    requires ReadAll(outs).Failure?
    ensures exists i :: (0 <= i < |outs| && outs[i].Failure? && ReadAll(outs).error == outs[i].error &&
                         forall j :: 0 <= j < i ==> outs[j].Success?)
  {
    var init := outs[..|outs| - 1];
    if ReadAll(init).Failure? {
      ReadAllFailure(init);
      var i :| 0 <= i < |init| && init[i].Failure? && ReadAll(init).error == init[i].error &&
        forall j :: 0 <= j < i ==> init[j].Success?;
      assert outs[i] == init[i];
      assert forall j :: 0 <= j < i ==> outs[j] == init[j];
    } else {
      ReadAllSuccess(init);
      assert forall j :: 0 <= j < |outs| - 1 ==> outs[j] == init[j];
    }
  }

  /** Once a block fails, reading further blocks keeps that error. */
  lemma {:induction false} ReadAllFailureStays(outs: seq<Result<Option<GradeRecord>, TranscriptError>>,
                                               more: seq<Result<Option<GradeRecord>, TranscriptError>>)
    requires ReadAll(outs).Failure?
    ensures ReadAll(outs + more) == ReadAll(outs)
  {
    if more != [] {
      var more' := more[..|more| - 1];
      ReadAllFailureStays(outs, more');
      var all := outs + more;
      assert all[..|all| - 1] == outs + more';
      assert ReadAll(all) == ReadAll(outs + more');
    } else {
      assert outs + more == outs;
    }
  }

  /** The indices of the blocks that give a record, in increasing order. */
  function Found(outs: seq<Result<Option<GradeRecord>, TranscriptError>>): (ix: seq<nat>)
    ensures forall j :: 0 <= j < |ix| ==> ix[j] < |outs|
    ensures forall a, b :: 0 <= a < b < |ix| ==> ix[a] < ix[b]
  {
    if outs == [] then []
    else
      var n := |outs| - 1;
      Found(outs[..n]) + (if outs[n].Success? && outs[n].value.Some? then [n] else [])
  }

  /** A block is among the found ones exactly when it gives a record. */
  lemma {:induction false} FoundMembers(outs: seq<Result<Option<GradeRecord>, TranscriptError>>, i: nat)
    requires i < |outs|
    ensures i in Found(outs) <==> outs[i].Success? && outs[i].value.Some?
  {
    var n := |outs| - 1;
    if i < n {
      FoundMembers(outs[..n], i);
      assert outs[..n][i] == outs[i];
    }
  }

  /** A successful read holds exactly the records of the found blocks, in block order. */
  lemma {:induction false} ReadAllRecords(outs: seq<Result<Option<GradeRecord>, TranscriptError>>)
    requires ReadAll(outs).Success?
    ensures var rs := ReadAll(outs).value;
      var ix := Found(outs);
      |rs| == |ix| && forall j :: 0 <= j < |rs| ==> outs[ix[j]] == Success(Some(rs[j]))
  {
    if outs != [] {
      var n := |outs| - 1;
      var init := outs[..n];
      ReadAllRecords(init);
      var rs0, ix0 := ReadAll(init).value, Found(init);
      var rs, ix := ReadAll(outs).value, Found(outs);
      if outs[n].Success? && outs[n].value.Some? {
        assert rs == rs0 + [outs[n].value.value] && ix == ix0 + [n];
        forall j | 0 <= j < |rs| ensures outs[ix[j]] == Success(Some(rs[j])) {
          if j < |rs0| {
            assert rs[j] == rs0[j] && ix[j] == ix0[j] && outs[ix0[j]] == init[ix0[j]];
          }
        }
      } else {
        assert rs == rs0 && ix == ix0;
        forall j | 0 <= j < |rs| ensures outs[ix[j]] == Success(Some(rs[j])) {
          assert outs[ix0[j]] == init[ix0[j]];
        }
      }
    }
  }

  /**
   * A block succeeds exactly when it is accepted; a found course gives the
   * record of the block's course, year and grade, and a missing one gives none.
   */
  lemma ReadBlockOutcome(table: map<string, Course>, block: seq<string>)
    requires |block| == 3
    ensures ReadBlock(table, block).Success? <==> BlockAccepted(table, block)
    ensures ReadBlock(table, block).Success? ==>
      (ReadBlock(table, block).value.Some? <==> block[0] in table)
    ensures ReadBlock(table, block).Success? && block[0] in table ==>
      ReadBlock(table, block).value.value == GradeRecord(table[block[0]], ParseInt(block[1]).value, block[2])
    ensures ParseInt(block[1]).None? ==> ReadBlock(table, block) == Failure(Malformed)
    ensures ParseInt(block[1]).Some? && block[0] in table && !IsLegalGrade(block[2]) ==>
      ReadBlock(table, block) ==
        Failure(InvalidGrade(IllegalGrade(IllegalGradeMessage(table[block[0]], ParseInt(block[1]).value, block[2]))))
  {
  }

  /**
   * The constructor succeeds exactly on an empty file, or on a complete header
   * followed by complete blocks that are all accepted.
   */
  lemma ParseTranscriptSuccess(table: map<string, Course>, lines: seq<string>)
    ensures ParseTranscript(table, lines).Success? <==>
      lines == [] ||
      (|lines| >= 3 && (|lines| - 3) % 3 == 0 &&
       forall i :: 0 <= i < (|lines| - 3) / 3 ==> BlockAccepted(table, BlockAt(lines, i)))
  {
    if |lines| >= 3 {
      var k := (|lines| - 3) / 3;
      var outs := Outcomes(table, lines, k);
      ReadAllSuccess(outs);
      forall i | 0 <= i < k ensures outs[i].Success? <==> BlockAccepted(table, BlockAt(lines, i)) {
        ReadBlockOutcome(table, BlockAt(lines, i));
      }
    }
  }

  /**
   * On success the header lines are the id, the first name and the last
   * name, and the records are those of the blocks whose course is found, in
   * block order; blocks whose course is not found add nothing.
   */
  lemma ParseTranscriptRecords(table: map<string, Course>, lines: seq<string>)
    requires ParseTranscript(table, lines).Success? && lines != []
    ensures var d := ParseTranscript(table, lines).value;
      var k := (|lines| - 3) / 3;
      var ix := Found(Outcomes(table, lines, k));
      && d.id == Some(lines[0]) && d.firstName == Some(lines[1]) && d.lastName == Some(lines[2])
      && |d.records| == |ix|
      && forall j :: 0 <= j < |ix| ==>
           var b := BlockAt(lines, ix[j]);
           b[0] in table && ParseInt(b[1]).Some? && d.records[j] == GradeRecord(table[b[0]], ParseInt(b[1]).value, b[2])
  {
    var k := (|lines| - 3) / 3;
    var outs := Outcomes(table, lines, k);
    ReadAllRecords(outs);
    var d := ParseTranscript(table, lines).value;
    var ix := Found(outs);
    forall j | 0 <= j < |ix|
      ensures var b := BlockAt(lines, ix[j]);
        b[0] in table && ParseInt(b[1]).Some? && d.records[j] == GradeRecord(table[b[0]], ParseInt(b[1]).value, b[2])
    {
      ReadBlockOutcome(table, BlockAt(lines, ix[j]));
    }
  }

  /** A block whose course is not found is skipped, whatever its grade: only its year must parse. */
  lemma SkippedBlockIgnored(table: map<string, Course>, lines: seq<string>, i: nat)
    requires 6 + 3 * i <= |lines|
    requires BlockAt(lines, i)[0] !in table && ParseInt(BlockAt(lines, i)[1]).Some?
    ensures BlockAccepted(table, BlockAt(lines, i))
    ensures i !in Found(Outcomes(table, lines, i + 1))
  {
    FoundMembers(Outcomes(table, lines, i + 1), i);
  }

  // ----------------------------------------------------------------------
  // Credits

  /** The credits one course gives a category: its credits once per occurrence of the code. */
  function OccurrenceCredits(cr: Req, reqs: seq<Req>, credits: int): int {
    if reqs == [] then 0
    else OccurrenceCredits(cr, reqs[..|reqs| - 1], credits) + (if reqs[|reqs| - 1] == cr then credits else 0)
  }

  /** The credits the records give category cr, summed in record order. */
  function CreditsFor(rs: seq<GradeRecord>, cr: Req): int {
    if rs == [] then 0
    else
      var c := rs[|rs| - 1].course;
      CreditsFor(rs[..|rs| - 1], cr) + OccurrenceCredits(cr, c.requirementsMet, c.credits)
  }

  /** A course listing a code n times counts its credits n times. */
  lemma {:induction false} OccurrenceCreditsCount(cr: Req, reqs: seq<Req>, credits: int)
    ensures OccurrenceCredits(cr, reqs, credits) == Count(cr, reqs) * credits
  {
    if reqs != [] {
      OccurrenceCreditsCount(cr, reqs[..|reqs| - 1], credits);
      var n := Count(cr, reqs[..|reqs| - 1]);
      if reqs[|reqs| - 1] == cr {
        assert (n + 1) * credits == n * credits + credits;
      }
    }
  }

  /** Credits add up over a split of the records. */
  lemma {:induction false} CreditsForAppend(a: seq<GradeRecord>, b: seq<GradeRecord>, cr: Req)
    ensures CreditsFor(a + b, cr) == CreditsFor(a, cr) + CreditsFor(b, cr)
  {
    if b != [] {
      var b' := b[..|b| - 1];
      CreditsForAppend(a, b', cr);
      var ab := a + b;
      assert ab[..|ab| - 1] == a + b' && ab[|ab| - 1] == b[|b| - 1];
      var last := b[|b| - 1].course;
      var occ := OccurrenceCredits(cr, last.requirementsMet, last.credits);
      assert CreditsFor(ab, cr) == CreditsFor(a + b', cr) + occ;
      assert CreditsFor(b, cr) == CreditsFor(b', cr) + occ;
    } else {
      assert a + b == a;
    }
  }

  /** A category none of the recorded courses lists earns nothing. */
  lemma {:induction false} CreditsForUnlisted(rs: seq<GradeRecord>, cr: Req)
    requires forall i :: 0 <= i < |rs| ==> Count(cr, rs[i].course.requirementsMet) == 0
    ensures CreditsFor(rs, cr) == 0
  {
    if rs != [] {
      var c := rs[|rs| - 1].course;
      CreditsForUnlisted(rs[..|rs| - 1], cr);
      OccurrenceCreditsCount(cr, c.requirementsMet, c.credits);
    }
  }

  // ----------------------------------------------------------------------
  // Recommendations

  /** The coursesTaken list: the course of each grade record, in order. */
  function CoursesOf(rs: seq<GradeRecord>): (cs: seq<Course>)
    ensures |cs| == |rs|
  {
    if rs == [] then [] else CoursesOf(rs[..|rs| - 1]) + [rs[|rs| - 1].course]
  }

  /** A course is among the taken ones exactly when some grade record is for it. */
  lemma {:induction false} CoursesOfMembers(rs: seq<GradeRecord>, c: Course)
    ensures c in CoursesOf(rs) <==> exists i :: 0 <= i < |rs| && rs[i].course == c
  {
    if rs != [] {
      var init := rs[..|rs| - 1];
      CoursesOfMembers(init, c);
      if c in CoursesOf(init) {
        var i :| 0 <= i < |init| && init[i].course == c;
        assert rs[i] == init[i];
      }
      if exists i :: 0 <= i < |rs| && rs[i].course == c {
        var i :| 0 <= i < |rs| && rs[i].course == c;
        if i < |init| {
          assert init[i] == rs[i];
        }
      }
    }
  }

  /** The courses of list not in taken, in list order. */
  function Untaken(list: seq<Course>, taken: seq<Course>): seq<Course> {
    if list == [] then []
    else
      var last := list[|list| - 1];
      Untaken(list[..|list| - 1], taken) + (if last in taken then [] else [last])
  }

  /** Exactly the listed courses not taken remain. */
  lemma {:induction false} UntakenMembers(list: seq<Course>, taken: seq<Course>, c: Course)
    ensures c in Untaken(list, taken) <==> c in list && c !in taken
  {
    if list != [] {
      var init := list[..|list| - 1];
      UntakenMembers(init, taken, c);
      assert list == init + [list[|list| - 1]];
    }
  }

  /** The filter keeps order: it distributes over concatenation. */
  lemma {:induction false} UntakenAppend(a: seq<Course>, b: seq<Course>, taken: seq<Course>)
    ensures Untaken(a + b, taken) == Untaken(a, taken) + Untaken(b, taken)
  {
    if b != [] {
      var b' := b[..|b| - 1];
      UntakenAppend(a, b', taken);
      var ab := a + b;
      assert ab[..|ab| - 1] == a + b' && ab[|ab| - 1] == b[|b| - 1];
      var x := b[|b| - 1];
      var tail := if x in taken then [] else [x];
      assert Untaken(ab, taken) == Untaken(a + b', taken) + tail;
      assert Untaken(b, taken) == Untaken(b', taken) + tail;
      AppendAssoc(Untaken(a, taken), Untaken(b', taken), tail);
    } else {
      assert a + b == a;
    }
  }

  /** A category whose earned credits are below its threshold. */
  predicate Unmet(credits: seq<int>, cr: Req)
    requires |credits| == NumReqs
  {
    credits[Ordinal(cr)] < Threshold(cr)
  }

  /** Every unmet category has an index list (the Java code iterates it without a null check). */
  predicate IndexCoversUnmet(credits: seq<int>, index: map<Req, seq<Course>>)
    requires |credits| == NumReqs
  {
    forall cr :: Unmet(credits, cr) ==> cr in index
  }

  /** One recommendation: a category and the courses suggested for it. */
  datatype Section = Section(requirement: Req, courses: seq<Course>)

  /** The sections for the categories in reqs, in their order: one per unmet category, listing its untaken courses. */
  function Sections(credits: seq<int>, taken: seq<Course>, index: map<Req, seq<Course>>, reqs: seq<Req>): seq<Section>
    requires |credits| == NumReqs && IndexCoversUnmet(credits, index)
  {
    if reqs == [] then []
    else
      var cr := reqs[|reqs| - 1];
      Sections(credits, taken, index, reqs[..|reqs| - 1]) +
        (if Unmet(credits, cr) then [Section(cr, Untaken(index[cr], taken))] else [])
  }

  /** The heading line of the section for cr. */
  function Heading(cr: Req): string {
    "\n" + "To satisfy the " + Title(cr) + " requirement take any of: "
  }

  /** One suggested course: a new line, a tab, then the course. */
  function CourseLine(c: Course): string {
    "\n" + "\t" + c.ToString()
  }

  function CourseLines(cs: seq<Course>): string {
    if cs == [] then "" else CourseLines(cs[..|cs| - 1]) + CourseLine(cs[|cs| - 1])
  }

  lemma CourseLinesSnoc(cs: seq<Course>, c: Course)
    ensures CourseLines(cs + [c]) == CourseLines(cs) + CourseLine(c)
  {
    assert (cs + [c])[..|cs|] == cs;
  }

  function SectionText(s: Section): string {
    Heading(s.requirement) + CourseLines(s.courses)
  }

  function RenderSections(ss: seq<Section>): string {
    if ss == [] then "" else RenderSections(ss[..|ss| - 1]) + SectionText(ss[|ss| - 1])
  }

  /** Some section is for category cr. */
  predicate HasSection(ss: seq<Section>, cr: Req) {
    exists k :: 0 <= k < |ss| && ss[k].requirement == cr
  }

  /** A category has a section exactly when it is among reqs and unmet. */
  lemma {:induction false} SectionsFor(credits: seq<int>, taken: seq<Course>, index: map<Req, seq<Course>>,
                                       reqs: seq<Req>, cr: Req)
    requires |credits| == NumReqs && IndexCoversUnmet(credits, index)
    ensures HasSection(Sections(credits, taken, index, reqs), cr) <==> cr in reqs && Unmet(credits, cr)
  {
    if reqs != [] {
      var init := reqs[..|reqs| - 1];
      var last := reqs[|reqs| - 1];
      SectionsFor(credits, taken, index, init, cr);
      assert reqs == init + [last];
      var ss0 := Sections(credits, taken, index, init);
      var ss := Sections(credits, taken, index, reqs);
      assert ss == ss0 + if Unmet(credits, last) then [Section(last, Untaken(index[last], taken))] else [];
      if HasSection(ss0, cr) {
        var k :| 0 <= k < |ss0| && ss0[k].requirement == cr;
        assert ss[k] == ss0[k];
        assert HasSection(ss, cr);
      }
      if HasSection(ss, cr) {
        var k :| 0 <= k < |ss| && ss[k].requirement == cr;
        if k < |ss0| {
          assert ss0[k] == ss[k];
          assert HasSection(ss0, cr);
        }
      }
      if cr in reqs && Unmet(credits, cr) && !HasSection(ss0, cr) {
        assert cr == last;
        assert ss[|ss0|].requirement == cr;
      }
    }
  }

  /**
   * A section as recommendCourses prints it: for an unmet category of reqs,
   * listing the untaken courses of that category's index list in list order,
   * none of them taken.
   */
  predicate SectionFits(credits: seq<int>, taken: seq<Course>, index: map<Req, seq<Course>>,
                        reqs: seq<Req>, s: Section)
    requires |credits| == NumReqs && IndexCoversUnmet(credits, index)
  {
    && s.requirement in reqs
    && Unmet(credits, s.requirement)
    && s.courses == Untaken(index[s.requirement], taken)
    && (forall c :: c in s.courses ==> c !in taken)
  }

  /** Every section fits its category. */
  lemma {:induction false} SectionsContent(credits: seq<int>, taken: seq<Course>, index: map<Req, seq<Course>>,
                                           reqs: seq<Req>)
    requires |credits| == NumReqs && IndexCoversUnmet(credits, index)
    ensures forall k :: 0 <= k < |Sections(credits, taken, index, reqs)| ==>
      SectionFits(credits, taken, index, reqs, Sections(credits, taken, index, reqs)[k])
  {
    if reqs != [] {
      var init := reqs[..|reqs| - 1];
      var last := reqs[|reqs| - 1];
      SectionsContent(credits, taken, index, init);
      var ss0 := Sections(credits, taken, index, init);
      var ss := Sections(credits, taken, index, reqs);
      assert ss == ss0 + if Unmet(credits, last) then [Section(last, Untaken(index[last], taken))] else [];
      assert reqs == init + [last];
      forall k | 0 <= k < |ss| ensures SectionFits(credits, taken, index, reqs, ss[k]) {
        if k < |ss0| {
          assert ss[k] == ss0[k];
          assert SectionFits(credits, taken, index, init, ss0[k]);
        } else {
          assert ss[k] == Section(last, Untaken(index[last], taken));
          forall c | c in ss[k].courses ensures c !in taken {
            UntakenMembers(index[last], taken, c);
          }
        }
      }
    }
  }

  /** Sections for categories below ordinal n, in strictly increasing ordinal order. */
  predicate InEnumOrder(ss: seq<Section>, n: nat) {
    && (forall k :: 0 <= k < |ss| ==> Ordinal(ss[k].requirement) < n)
    && (forall a, b :: 0 <= a < b < |ss| ==> Ordinal(ss[a].requirement) < Ordinal(ss[b].requirement))
  }

  /** Over a prefix of the enumeration, sections come in enumeration order. */
  lemma {:induction false} SectionsInEnumOrder(credits: seq<int>, taken: seq<Course>, index: map<Req, seq<Course>>,
                                               n: nat)
    requires |credits| == NumReqs && IndexCoversUnmet(credits, index) && n <= NumReqs
    ensures InEnumOrder(Sections(credits, taken, index, AllReqs[..n]), n)
  {
    if n > 0 {
      SectionsInEnumOrder(credits, taken, index, n - 1);
      var reqs := AllReqs[..n];
      assert reqs[..n - 1] == AllReqs[..n - 1];
      var ss0 := Sections(credits, taken, index, AllReqs[..n - 1]);
      var ss := Sections(credits, taken, index, reqs);
      var last := reqs[n - 1];
      assert ss == ss0 + if Unmet(credits, last) then [Section(last, Untaken(index[last], taken))] else [];
      OrdinalAt(n - 1);
      assert InEnumOrder(ss0, n - 1);
      forall k | 0 <= k < |ss| ensures Ordinal(ss[k].requirement) < n {
        if k < |ss0| {
          assert ss[k] == ss0[k];
        }
      }
      forall a, b | 0 <= a < b < |ss| ensures Ordinal(ss[a].requirement) < Ordinal(ss[b].requirement) {
        assert ss[a] == ss0[a];
        if b < |ss0| {
          assert ss[b] == ss0[b];
        }
      }
    }
  }

  /** One more category of the enumeration adds its section exactly when it is unmet. */
  lemma SectionsStep(credits: seq<int>, taken: seq<Course>, index: map<Req, seq<Course>>, n: nat)
    requires |credits| == NumReqs && IndexCoversUnmet(credits, index) && n < NumReqs
    ensures Ordinal(AllReqs[n]) == n
    ensures Unmet(credits, AllReqs[n]) ==>
      RenderSections(Sections(credits, taken, index, AllReqs[..n + 1])) ==
      RenderSections(Sections(credits, taken, index, AllReqs[..n])) +
      SectionText(Section(AllReqs[n], Untaken(index[AllReqs[n]], taken)))
    ensures !Unmet(credits, AllReqs[n]) ==>
      RenderSections(Sections(credits, taken, index, AllReqs[..n + 1])) ==
      RenderSections(Sections(credits, taken, index, AllReqs[..n]))
  {
    OrdinalAt(n);
    var cr := AllReqs[n];
    PrefixStep(AllReqs, n);
    var ss := Sections(credits, taken, index, AllReqs[..n]);
    if Unmet(credits, cr) {
      var sec := Section(cr, Untaken(index[cr], taken));
      assert Sections(credits, taken, index, AllReqs[..n + 1]) == ss + [sec];
      assert (ss + [sec])[..|ss|] == ss;
    } else {
      assert Sections(credits, taken, index, AllReqs[..n + 1]) == ss;
    }
  }

  /** Each section renders to a line starting with a newline, so nothing renders to the empty string. */
  lemma {:induction false} RenderSectionsEmpty(ss: seq<Section>)
    ensures RenderSections(ss) == "" <==> ss == []
  {
    if ss != [] {
      var t := SectionText(ss[|ss| - 1]);
      assert t[0] == '\n';
      assert |RenderSections(ss)| >= |t| > 0;
    }
  }

  /** The recommendations are empty exactly when every category is met. */
  lemma RecommendationsEmpty(credits: seq<int>, taken: seq<Course>, index: map<Req, seq<Course>>)
    requires |credits| == NumReqs && IndexCoversUnmet(credits, index)
    ensures RenderSections(Sections(credits, taken, index, AllReqs)) == "" <==> forall cr :: !Unmet(credits, cr)
  {
    var ss := Sections(credits, taken, index, AllReqs);
    RenderSectionsEmpty(ss);
    if ss != [] {
      SectionsContent(credits, taken, index, AllReqs);
      assert SectionFits(credits, taken, index, AllReqs, ss[0]);
    } else {
      forall cr ensures !Unmet(credits, cr) {
        SectionsFor(credits, taken, index, AllReqs, cr);
        assert AllReqs[Ordinal(cr)] == cr;
      }
    }
  }

  // ----------------------------------------------------------------------
  // The printed form

  /** A string field as string concatenation prints it: null prints as "null". */
  function OrNull(s: Option<string>): string {
    if s.Some? then s.value else "null"
  }

  function HeaderText(d: TranscriptData): string {
    "Transcript for " + OrNull(d.firstName) + " " + OrNull(d.lastName) + "\n" + "id: " + OrNull(d.id)
  }

  /** The codes a course lists, each followed by one space. */
  function CodesText(reqs: seq<Req>): string {
    if reqs == [] then "" else CodesText(reqs[..|reqs| - 1]) + (Name(reqs[|reqs| - 1]) + " ")
  }

  /** The line of one grade record: the record, " *", then its course's codes. */
  function RecordLine(gr: GradeRecord): string {
    ("\n" + gr.ToString() + " *") + CodesText(gr.course.requirementsMet)
  }

  function RecordsText(rs: seq<GradeRecord>): string {
    if rs == [] then "" else RecordsText(rs[..|rs| - 1]) + RecordLine(rs[|rs| - 1])
  }

  /** The summary line of one category: "TITLE (CODE): EARNED/NEEDED". */
  function CategoryLine(credits: seq<int>, cr: Req): string
    requires |credits| == NumReqs
  {
    "\n" + Title(cr) + " (" + Name(cr) + "): " + IntToString(credits[Ordinal(cr)]) + "/" + IntToString(Threshold(cr))
  }

  /** The summary lines of the categories in reqs, in their order. */
  function CoreText(credits: seq<int>, reqs: seq<Req>): string
    requires |credits| == NumReqs
  {
    if reqs == [] then "" else CoreText(credits, reqs[..|reqs| - 1]) + CategoryLine(credits, reqs[|reqs| - 1])
  }

  /** One more category of the enumeration adds its summary line. */
  lemma CoreTextStep(credits: seq<int>, n: nat)
    requires |credits| == NumReqs && n < NumReqs
    ensures Ordinal(AllReqs[n]) == n
    ensures CoreHeading + CoreText(credits, AllReqs[..n + 1]) ==
      (CoreHeading + CoreText(credits, AllReqs[..n])) + CategoryLine(credits, AllReqs[n])
  {
    OrdinalAt(n);
    PrefixStep(AllReqs, n);
    AppendAssoc(CoreHeading, CoreText(credits, AllReqs[..n]), CategoryLine(credits, AllReqs[n]));
  }

  /** The blank line and heading in front of the credit summary. */
  const CoreHeading: string := "\n" + "\n" + "Core requirements: "

  function TranscriptText(d: TranscriptData, credits: seq<int>): string
    requires |credits| == NumReqs
  {
    (HeaderText(d) + RecordsText(d.records)) + (CoreHeading + CoreText(credits, AllReqs))
  }

  // ----------------------------------------------------------------------
  // The transcript object

  class Transcript {
    var id: Option<string>
    var firstName: Option<string>
    var lastName: Option<string>
    var gradeRecords: seq<GradeRecord>
    /** Credits earned per category, indexed by ordinal. */
    var requirementsMet: array<int>

    /** The credit array has one slot per category, holding the credits the records give it. */
    ghost predicate Valid()
      reads this, requirementsMet
    {
      && requirementsMet.Length == NumReqs
      && forall cr :: requirementsMet[Ordinal(cr)] == CreditsFor(gradeRecords, cr)
    }

    function Data(): TranscriptData
      reads this
    {
      TranscriptData(id, firstName, lastName, gradeRecords)
    }

    /** The state before the file is read: null header, no records, zero credits. */
    constructor ()
      ensures Valid() && fresh(requirementsMet)
      ensures Data() == TranscriptData(None, None, None, [])
    {
      id, firstName, lastName := None, None, None;
      gradeRecords := [];
      requirementsMet := new int[NumReqs](_ => 0);
    }

    /** Adds a grade record, then its course's credits to each category it lists, once per occurrence. */
    method AddGradeRecord(gr: GradeRecord)
      requires Valid()
      modifies this, requirementsMet
      ensures Valid() && requirementsMet == old(requirementsMet)
      ensures Data() == old(Data()).(records := old(gradeRecords) + [gr])
    {
      gradeRecords := gradeRecords + [gr];
      var reqs := gr.course.requirementsMet;
      var j := 0;
      while j < |reqs|
        invariant 0 <= j <= |reqs|
        invariant requirementsMet == old(requirementsMet)
        invariant Data() == old(Data()).(records := old(gradeRecords) + [gr])
        invariant forall cr :: (requirementsMet[Ordinal(cr)] ==
                                CreditsFor(old(gradeRecords), cr) + OccurrenceCredits(cr, reqs[..j], gr.course.credits))
      {
        var cr := reqs[j];
        requirementsMet[Ordinal(cr)] := requirementsMet[Ordinal(cr)] + gr.course.credits;
        assert reqs[..j + 1][..j] == reqs[..j];
        j := j + 1;
      }
      assert reqs[..j] == reqs;
      assert gradeRecords[..|gradeRecords| - 1] == old(gradeRecords);
    }

    /** The coursesTaken list of recommendCourses: the course of each grade record, in order. */
    method CoursesTaken() returns (taken: seq<Course>)
      ensures taken == CoursesOf(gradeRecords)
    {
      taken := [];
      var i := 0;
      while i < |gradeRecords|
        invariant 0 <= i <= |gradeRecords|
        invariant taken == CoursesOf(gradeRecords[..i])
      {
        assert gradeRecords[..i + 1][..i] == gradeRecords[..i];
        taken := taken + [gradeRecords[i].course];
        i := i + 1;
      }
      assert gradeRecords[..i] == gradeRecords;
    }

    /** The credit summary of toString: the heading, then one line per category in enumeration order. */
    method CoreRequirementsText() returns (coreRequirementMet: string)
      requires Valid()
      ensures coreRequirementMet == CoreHeading + CoreText(requirementsMet[..], AllReqs)
    {
      ghost var credits := requirementsMet[..];
      coreRequirementMet := "\n" + "\n" + "Core requirements: ";
      assert coreRequirementMet == CoreHeading + CoreText(credits, AllReqs[..0]);
      var count := 0;
      while count < |AllReqs|
        invariant 0 <= count <= |AllReqs|
        invariant coreRequirementMet == CoreHeading + CoreText(credits, AllReqs[..count])
      {
        var cr := AllReqs[count];
        CoreTextStep(credits, count);
        var line := "\n" + Title(cr) + " (" + Name(cr) + "): " +
          IntToString(requirementsMet[count]) + "/" + IntToString(Threshold(cr));
        assert line == CategoryLine(credits, cr);
        coreRequirementMet := coreRequirementMet + line;
        count := count + 1;
      }
      assert AllReqs[..count] == AllReqs;
    }

    /**
     * recommendCourses: for each unmet category, in enumeration order, a
     * heading and then every course of its index list that no grade record is
     * for, in list order.
     */
    method RecommendCourses(catalog: Catalog) returns (s: string)
      requires Valid() && catalog.loaded && catalog.Valid()
      requires IndexCoversUnmet(requirementsMet[..], catalog.coursesMeetingRequirements)
      ensures s == RenderSections(Sections(requirementsMet[..], CoursesOf(gradeRecords),
                                           catalog.coursesMeetingRequirements, AllReqs))
    {
      ghost var credits := requirementsMet[..];
      ghost var index := catalog.coursesMeetingRequirements;
      s := "";
      var taken := CoursesTaken();
      var n := 0;
      while n < |AllReqs|
        invariant 0 <= n <= |AllReqs|
        invariant s == RenderSections(Sections(credits, taken, index, AllReqs[..n]))
      {
        var cr := AllReqs[n];
        SectionsStep(credits, taken, index, n);
        if requirementsMet[Ordinal(cr)] < Threshold(cr) {
          assert Unmet(credits, cr) && cr in index;
          var list := catalog.GetCoursesMeetingRequirements(Some(cr)).value;
          s := AppendSection(s, cr, list, taken);
        }
        n := n + 1;
      }
      assert AllReqs[..n] == AllReqs;
    }

    /**
     * toString: the name and id, one line per grade record with its codes,
     * then the credit summary of every category in enumeration order.
     */
    method ToString() returns (s: string)
      requires Valid()
      ensures s == TranscriptText(Data(), requirementsMet[..])
    {
      var studentCourses := "Transcript for " + OrNull(firstName) + " " + OrNull(lastName) + "\n" + "id: " + OrNull(id);
      var i := 0;
      while i < |gradeRecords|
        invariant 0 <= i <= |gradeRecords|
        invariant studentCourses == HeaderText(Data()) + RecordsText(gradeRecords[..i])
      {
        var gr := gradeRecords[i];
        assert gradeRecords[..i + 1][..i] == gradeRecords[..i];
        AppendAssoc(HeaderText(Data()), RecordsText(gradeRecords[..i]), RecordLine(gr));
        studentCourses := AppendRecordLine(studentCourses, gr);
        i := i + 1;
      }
      assert gradeRecords[..i] == gradeRecords;
      var coreRequirementMet := CoreRequirementsText();
      s := studentCourses + coreRequirementMet;
    }
  }

  /** Appends the line of one grade record: the record, " *", then each code its course lists. */
  method AppendRecordLine(s: string, gr: GradeRecord) returns (t: string)
    ensures t == s + RecordLine(gr)
  {
    var head := "\n" + gr.ToString() + " *";
    t := s + head;
    var reqs := gr.course.requirementsMet;
    var j := 0;
    while j < |reqs|
      invariant 0 <= j <= |reqs|
      invariant t == (s + head) + CodesText(reqs[..j])
    {
      assert reqs[..j + 1][..j] == reqs[..j];
      AppendAssoc(s + head, CodesText(reqs[..j]), Name(reqs[j]) + " ");
      t := t + (Name(reqs[j]) + " ");
      j := j + 1;
    }
    assert reqs[..j] == reqs;
    AppendAssoc(s, head, CodesText(reqs));
  }

  /** One more listed course extends the section text by its line, unless it was taken. */
  lemma UntakenStep(prefix: string, list: seq<Course>, j: nat, taken: seq<Course>)
    requires j < |list|
    ensures list[j] in taken ==> Untaken(list[..j + 1], taken) == Untaken(list[..j], taken)
    ensures list[j] !in taken ==>
      prefix + CourseLines(Untaken(list[..j + 1], taken)) == (prefix + CourseLines(Untaken(list[..j], taken))) + CourseLine(list[j])
  {
    assert list[..j + 1][..j] == list[..j];
    var u := Untaken(list[..j], taken);
    if list[j] !in taken {
      assert Untaken(list[..j + 1], taken) == u + [list[j]];
      CourseLinesSnoc(u, list[j]);
      AppendAssoc(prefix, CourseLines(u), CourseLine(list[j]));
    }
  }

  /** Appends the section of one unmet category: its heading, then each listed course not yet taken. */
  method AppendSection(s: string, cr: Req, list: seq<Course>, taken: seq<Course>) returns (t: string)
    ensures t == s + SectionText(Section(cr, Untaken(list, taken)))
  {
    var heading := Heading(cr);
    t := s + heading;
    var j := 0;
    while j < |list|
      invariant 0 <= j <= |list|
      invariant t == (s + heading) + CourseLines(Untaken(list[..j], taken))
    {
      UntakenStep(s + heading, list, j, taken);
      if list[j] !in taken {
        t := t + CourseLine(list[j]);
      }
      j := j + 1;
    }
    assert list[..j] == list;
    AppendAssoc(s, heading, CourseLines(Untaken(list, taken)));
  }

  /**
   * The constructor: reads the header, then block after block; a block whose
   * course is found adds a grade record and its credits, a block whose course
   * is not found is skipped. The outcome is the one ParseTranscript gives.
   */
  method NewTranscript(catalog: Catalog, lines: seq<string>) returns (r: Result<Transcript, TranscriptError>)
    requires catalog.loaded && catalog.Valid()
    ensures r.Failure? ==> ParseTranscript(catalog.courses, lines) == Failure(r.error)
    ensures r.Success? ==> (fresh(r.value) && fresh(r.value.requirementsMet) && r.value.Valid() &&
                            ParseTranscript(catalog.courses, lines) == Success(r.value.Data()))
  {
    var t := new Transcript();
    var p := 0;
    while p < |lines|
      invariant p == 0 || p == |lines|
      invariant fresh(t) && fresh(t.requirementsMet) && t.Valid()
      invariant p == 0 ==> t.Data() == TranscriptData(None, None, None, [])
      invariant p == |lines| ==> ParseTranscript(catalog.courses, lines) == Success(t.Data())
      decreases |lines| - p
    {
      if |lines| - p < 3 {
        return Failure(Malformed);
      }
      t.id := Some(lines[p]);
      t.firstName := Some(lines[p + 1]);
      t.lastName := Some(lines[p + 2]);
      var failure := ReadBlocks(catalog, t, lines);
      if failure.Some? {
        return Failure(failure.value);
      }
      p := |lines|;
    }
    return Success(t);
  }

  /**
   * The inner loop of the constructor: reads block after block until the
   * lines run out. A failure is the outcome ParseTranscript gives for the
   * whole file; otherwise t holds the records of every block.
   */
  method ReadBlocks(catalog: Catalog, t: Transcript, lines: seq<string>) returns (failure: Option<TranscriptError>)
    requires catalog.loaded && catalog.Valid() && t.Valid() && t.gradeRecords == [] && 3 <= |lines|
    modifies t, t.requirementsMet
    ensures t.Valid() && t.requirementsMet == old(t.requirementsMet)
    ensures t.id == old(t.id) && t.firstName == old(t.firstName) && t.lastName == old(t.lastName)
    ensures failure.Some? ==> ParseTranscript(catalog.courses, lines) == Failure(failure.value)
    ensures failure.None? ==> (|lines| % 3 == 0 &&
                               ReadAll(Outcomes(catalog.courses, lines, (|lines| - 3) / 3)) == Success(t.gradeRecords))
  {
    var p := 3;
    var k := 0;
    while p < |lines|
      invariant p == 3 + 3 * k <= |lines|
      invariant t.Valid() && t.requirementsMet == old(t.requirementsMet)
      invariant t.id == old(t.id) && t.firstName == old(t.firstName) && t.lastName == old(t.lastName)
      invariant ReadAll(Outcomes(catalog.courses, lines, k)) == Success(t.gradeRecords)
      decreases |lines| - p
    {
      var outcome := ReadBlockLines(catalog, lines, k);
      if outcome.Failure? {
        if 6 + 3 * k <= |lines| {
          BlockFails(catalog.courses, lines, k);
        } else {
          UnfinishedBlockFails(catalog.courses, lines, k);
        }
        return Some(outcome.error);
      }
      ReadAllStep(catalog.courses, lines, k);
      if outcome.value.Some? {
        t.AddGradeRecord(outcome.value.value);
      }
      p, k := p + 3, k + 1;
    }
    BlockCount(|lines|, k, 0);
    return None;
  }

  /**
   * One pass of the inner loop of the constructor, up to the update of the
   * transcript: looks up the course of block k, parses its year and reads its
   * grade, then builds the grade record when the course is found. A file that
   * ends inside the block is malformed.
   */
  method ReadBlockLines(catalog: Catalog, lines: seq<string>, k: nat) returns (r: Result<Option<GradeRecord>, TranscriptError>)
    requires catalog.loaded && catalog.Valid() && 3 + 3 * k < |lines|
    ensures 6 + 3 * k <= |lines| ==> r == ReadBlock(catalog.courses, BlockAt(lines, k))
    ensures 6 + 3 * k > |lines| ==> r == Failure(Malformed)
  {
    var p := 3 + 3 * k;
    var course := catalog.GetCourse(lines[p]);
    if |lines| - p < 2 {
      return Failure(Malformed);
    }
    var year := ParseInt(lines[p + 1]);
    if year.None? {
      return Failure(Malformed);
    }
    if |lines| - p < 3 {
      return Failure(Malformed);
    }
    var grade := lines[p + 2];
    assert BlockAt(lines, k) == [lines[p], lines[p + 1], grade];
    if course.None? {
      return Success(None);
    }
    var gr := NewGradeRecord(course.value, year.value, grade);
    if gr.Failure? {
      return Failure(InvalidGrade(gr.error));
    }
    return Success(Some(gr.value));
  }


  /** A block that succeeds extends the records read so far by its record, if it has one. */
  lemma ReadAllStep(table: map<string, Course>, lines: seq<string>, k: nat)
    requires 6 + 3 * k <= |lines|
    requires ReadAll(Outcomes(table, lines, k)).Success? && ReadBlock(table, BlockAt(lines, k)).Success?
    ensures ReadBlock(table, BlockAt(lines, k)).value.None? ==>
      ReadAll(Outcomes(table, lines, k + 1)) == ReadAll(Outcomes(table, lines, k))
    ensures ReadBlock(table, BlockAt(lines, k)).value.Some? ==>
      ReadAll(Outcomes(table, lines, k + 1)) ==
      Success(ReadAll(Outcomes(table, lines, k)).value + [ReadBlock(table, BlockAt(lines, k)).value.value])
  {
    var outs := Outcomes(table, lines, k);
    OutcomesExtend(table, lines, k);
    assert (outs + [ReadBlock(table, BlockAt(lines, k))])[..k] == outs;
  }

  /** After the header and k blocks, exactly k blocks fit, plus r lines of an unfinished one. */
  lemma BlockCount(n: nat, k: nat, r: nat)
    requires n == 3 + 3 * k + r && r < 3
    ensures (n - 3) / 3 == k && (n % 3 == 0 <==> r == 0)
  {
  }

  /** A file that ends inside block k is malformed, provided the blocks before it were read. */
  lemma UnfinishedBlockFails(table: map<string, Course>, lines: seq<string>, k: nat)
    requires 3 + 3 * k < |lines| < 6 + 3 * k && ReadAll(Outcomes(table, lines, k)).Success?
    ensures ParseTranscript(table, lines) == Failure(Malformed)
  {
    BlockCount(|lines|, k, |lines| - 3 - 3 * k);
  }

  /** A block that fails decides the outcome: every later block is ignored. */
  lemma BlockFails(table: map<string, Course>, lines: seq<string>, k: nat)
    requires 6 + 3 * k <= |lines| && ReadAll(Outcomes(table, lines, k)).Success?
    requires ReadBlock(table, BlockAt(lines, k)).Failure?
    ensures ParseTranscript(table, lines) == Failure(ReadBlock(table, BlockAt(lines, k)).error)
  {
    var m := (|lines| - 3) / 3;
    BlockCount(|lines|, m, (|lines| - 3) % 3);
    var outs := Outcomes(table, lines, m);
    var pre := Outcomes(table, lines, k + 1);
    OutcomesExtend(table, lines, k);
    assert outs == pre + outs[k + 1..];
    ReadAllFailureStays(pre, outs[k + 1..]);
  }

}

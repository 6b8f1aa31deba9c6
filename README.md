# Core-requirement transcript checker, modelled in Dafny

The system checks a student's transcript against a college's nine
general-education core requirements. A course catalog file is loaded into
two tables: course short name to course, and requirement category to the
list of courses that count for it. A transcript file is then read against
that catalog:

- the header gives the id, the first name and the last name;
- each 3-line block gives a course, a year and a grade;
- the credits of every course found are added to each category it lists.

Finally the transcript can recommend untaken courses for every category
whose credits are below the threshold, and print itself.

The Dafny project has one module per source file, plus three small support
modules:

- `CoreRequirements` (`core_requirement.dfy`): the enumeration. It holds
  the nine categories in declaration order, their titles, their credit
  thresholds, `ordinal()` and `valueOf`.
- `Courses` (`course.dfy`):
  - the `Course` value, with `getShortName` and `toString`;
  - the parsing of one 4-line catalog record;
  - the two tables, as functions of the list of loaded courses;
  - the class `Catalog`. The static `Hashtable`s of the Java class become
    this object's fields, and `loadCourses` becomes a method over the
    file's lines. Both lookups are functions of the catalog.
- `GradeRecords` (`grade_record.dfy`): the validating constructor and
  `isLegalGrade`. The exception becomes a `Result`.
- `Transcripts` (`transcript.dfy`):
  - the constructor as a specification function `ParseTranscript`, and as
    the imperative `NewTranscript`, which fills the class `Transcript`
    (grade-record list, and the credit `array<int>` indexed by ordinal);
  - `recommendCourses`, specified by a list of `Section`s and its
    rendering;
  - `toString`, specified by `TranscriptText`.
- Support modules:
  - `JavaText` (`java_text.dfy`): `Integer.parseInt`,
    `Integer.toString`/string concatenation of an `int`, and
    `String.split` with a literal separator that holds no regular-expression
    metacharacter (`" "` for line 1 of a record, `", "` for line 4), with
    `Join` as its inverse;
  - `Wrappers` (`wrappers.dfy`): `Option` and `Result`;
  - `SeqFacts` (`seq_facts.dfy`): two generic sequence lemmas.

Modelling choices:

- The file I/O is replaced by a `seq<string>` of lines.
- Java exceptions become error values:
  - a short file, or an unparsable number, is `Malformed` or a failed
    load;
  - an illegal grade is `InvalidGrade`.
- `null` is `None`.
- Java object identity of courses is the record's position in the load
  (`serial`). Two records with the same text are therefore still
  different courses, as they are for `ArrayList.contains`.
- The credit array is indexed by `Ordinal`. The class invariant
  `Transcript.Valid` states that slot `Ordinal(cr)` holds `CreditsFor`,
  the sum over the grade records of the course credits, counted once per
  occurrence of `cr` in the course's requirement list.

The documentation of `recommendCourses` promises "a statement that all are
met" when nothing is missing. The code returns the empty string in that
case (Transcript.java:108, 126). The model follows the code:
`RecommendationsEmpty` proves that the result is empty exactly when every
category is met.

## Model

| member | source | states |
|---|---|---|
| CoreRequirements.Ordinal | CoreRequirement.java:9-18 | the ordinal is below nine and is the category's position in `values()` |
| CoreRequirements.Name | Course.java:100 | definition: the constant's identifier, which `valueOf` reads (Course.java:100) and string concatenation prints (Transcript.java:211, 217); its properties are `ValueOfName` and `NameIsOneWord` |
| CoreRequirements.AllReqsExact | CoreRequirement.java:9-18 | there are exactly nine categories, all distinct, and the i-th has ordinal i |
| CoreRequirements.OrdinalAt | CoreRequirement.java:9-18 | the n-th category of `values()` has ordinal n |
| CoreRequirements.Title | CoreRequirement.java:48-50 | every title is a non-empty string fixed per constant |
| CoreRequirements.Threshold | CoreRequirement.java:39-41 | every credit threshold is positive |
| CoreRequirements.ThresholdTable | CoreRequirement.java:10-18 | WOC needs 7 credits, CE needs 2, every other category needs 3 |
| CoreRequirements.ValueOf | Course.java:98-101 | `valueOf` yields only the constant whose name is exactly the string |
| CoreRequirements.ValueOfName | Course.java:98-101 | `valueOf` finds every constant by its name (the inverse of `name()`) |
| CoreRequirements.NameIsOneWord | CoreRequirement.java:10-18 | every code is non-empty, with no space, no comma and no line break |
| JavaText.ParseInt | Course.java:93 | a parsed int lies in the 32-bit range and the text starts with a sign or a digit |
| JavaText.NatToStringDigits | Course.java:172 | the decimal rendering of a natural number is all digits, has no superfluous leading zero and reads back as the number |
| JavaText.IntToString | Course.java:172 | definition: `Integer.toString`, a '-' for negatives then the digits of the magnitude; also used at Course.java:239 and Transcript.java:218; its properties are `IntToStringDigits` and `ParseIntToString` |
| JavaText.IntToStringDigits | Course.java:172 | an int renders as its digits, preceded by '-' exactly when negative |
| JavaText.IntToStringNoSpace | Course.java:172 | the rendering of an int contains no space |
| JavaText.ParseIntToString | Course.java:93 | `parseInt` of the rendering of any 32-bit int gives the int back |
| JavaText.DropTrailingEmpty | Course.java:91 | `split` drops exactly the trailing empty pieces and keeps the rest in order |
| JavaText.Split | Course.java:91-96 | definition: `String.split` with a literal separator, a string without a match coming back whole and trailing empty pieces dropped; its properties are `SplitExcludesSeparator` and `SplitJoin` |
| JavaText.FieldsWithoutSeparator | Course.java:91 | a text holding no first character of the separator is a single piece |
| JavaText.FieldsExcludeSeparator | Course.java:91 | no piece contains a one-character separator |
| JavaText.SplitExcludesSeparator | Course.java:91 | no piece of `split(" ")` contains a space |
| JavaText.FieldsAtFirstSeparator | Course.java:91-93 | the text before the first separator is the first piece, and the rest is split on its own |
| JavaText.Join | Course.java:96 | definition: the words with the separator between consecutive ones, the line that split takes apart |
| JavaText.FieldsOfJoin | Course.java:96 | words holding no first character of the separator are exactly the pieces of their join |
| JavaText.SplitJoin | Course.java:91-96 | split undoes join when no word holds the separator's first character and the last word is non-empty |
| Courses.ParseCourseLine | Course.java:91-93 | the department of line 1 contains no space, and the number is a 32-bit int |
| Courses.ParseRequirements | Course.java:96-101 | a parse keeps one category per code, named by that code, in order; a failure names a code that is no category |
| Courses.ParseRecord | Course.java:91-102 | a parsed record is a loaded course with the record's serial and line 2 as its name |
| Courses.RecordLines | Course.java:90-96 | each record consumes exactly four lines |
| Courses.LoadedFrom | Course.java:86-116 | definition: what a load of the lines produces, the courses of the records read in order and whether the load reached the end; its properties are `LoadedFromUnique` and the contract of `Catalog.LoadCourses` |
| Courses.ReadPrefixExtend | Course.java:90-103 | one more parsed record extends the courses read so far |
| Courses.LoadedFromUnique | Course.java:83-118 | the courses a load reads, and whether it reaches the end, are determined by the lines |
| Courses.ShortNameParses | Course.java:170-173 | a short name splits back into the course's department and number |
| Courses.Course.ShortName | Course.java:170-173 | definition: department, one space, the number in decimal; its property is `ShortNameParses` |
| Courses.Course.ToString | Course.java:236-240 | definition: "DEPARTMENT NUMBER: NAME(CREDITS)"; its property is `CourseToStringShape`, and it is the prefix of a grade record's rendering (`ToStringShape`) |
| Courses.CourseToStringShape | Course.java:236-240 | the rendering is the short name and ": ", then the name, then the credits in parentheses, which parseInt reads back |
| Courses.Names | Course.java:96-101 | one code per requirement, in order |
| Courses.RequirementsLine | Course.java:96 | definition: line 4 of a record, the codes separated by ", " |
| Courses.RequirementsLineParses | Course.java:96-101 | line 4 written for a non-empty requirement list splits on ", " and parses back into that list |
| Courses.RecordOf | Course.java:90-96 | a course written as a record takes four lines |
| Courses.RecordRoundTrip | Course.java:90-102 | a loaded course with at least one code, written as a record, parses back into the same course |
| Courses.EmptyRequirementsLineFails | Course.java:96-101 | a record with an empty line 4 never parses: its single piece "" is no category code |
| Courses.CountPositive | Course.java:105-115 | a course lists a category at least once exactly when the category is among its codes |
| Courses.AddToIndexSpec | Course.java:105-115 | indexing one course creates a list only for its codes, and appends the course to the list of cr once per occurrence of cr |
| Courses.IndexOfSpec | Course.java:105-115 | the index has an entry for cr exactly when some loaded course lists cr, and the entry lists them in file order |
| Courses.ListingMembers | Course.java:105-114 | a course is in the list for cr exactly when it was loaded and lists cr |
| Courses.ListingNonEmpty | Course.java:105-115 | the list for cr is non-empty exactly when some loaded course lists cr |
| Courses.ListingInFileOrder | Course.java:90-115 | each index list holds its courses in file order |
| Courses.TableOf | Course.java:103 | definition: the short-name table after putting each loaded course in file order; its property is `TableOfSpec` |
| Courses.Lookup | Course.java:136-140 | definition: `Hashtable.get`, the course under the short name or null; `Catalog.GetCourse` states its result |
| Courses.IndexOf | Course.java:105-115 | definition: the index after indexing each loaded course in file order; its properties are `IndexOfSpec` and `ListingMembers` |
| Courses.AddToIndex | Course.java:105-115 | definition: the containsKey/get/add/put loop for one course, one append per occurrence of each code; its property is `AddToIndexSpec`, and `Catalog.IndexCourse` is proved equal to it |
| Courses.PutAllSpec | Course.java:103 | after successive puts a key is present exactly when it was put, and maps to the value of its last put |
| Courses.TableOfSpec | Course.java:103 | a short name is in the table exactly when some loaded course has it, and maps to the last such course |
| Courses.StaleIndexEntry | Course.java:103-115 | when two records share a short name the table keeps the later one, while the index still lists the earlier one |
| Courses.TablesExtend | Course.java:103-115 | one put plus the index updates for the next course keeps both tables equal to those derived from the courses read |
| Courses.ReadRecord | Course.java:91-102 | reading one record, code by code, gives the record's parse |
| Courses.Catalog.constructor | Course.java:27-29 | before any load the catalog holds no courses and is not loaded |
| Courses.Catalog.LoadCourses | Course.java:83-118 | both tables are rebuilt from empty, and are exactly those derived from the records read; the load reads record after record and succeeds exactly when all lines are consumed four at a time |
| Courses.Catalog.Add | Course.java:102-115 | one more course is put and indexed, keeping the tables consistent with the courses read |
| Courses.Catalog.IndexCourse | Course.java:105-115 | the index becomes the old index with the course appended once per occurrence of each of its codes; the table is untouched |
| Courses.Catalog.GetCourse | Course.java:132-146 | a course is returned exactly when some loaded course has the short name; it has that short name and is the last loaded one with it; otherwise null |
| Courses.Catalog.GetCoursesMeetingRequirements | Course.java:155-160 | null for a null argument and for an unlisted category; otherwise the non-empty list of the courses listing it, in file order |
| Courses.LookupStable | Course.java:132-146 | looking a found course up again by its own short name finds the same course |
| GradeRecords.NewGradeRecord | GradeRecord.java:24-37 | construction succeeds exactly for a legal grade and keeps the arguments unchanged; otherwise the exception carries the course, grade and year |
| GradeRecords.LegalGradeIsOneLetter | GradeRecord.java:46-52 | a grade is legal exactly when it is one of the single capital letters A, B, C, D, F |
| GradeRecords.NearGradesIllegal | GradeRecord.java:48-49 | "a", "A+", "" and "E" are illegal: the check is exact and case-sensitive |
| GradeRecords.IsLegalGrade | GradeRecord.java:46-52 | definition: equal to one of "A", "B", "C", "D", "F"; its properties are `LegalGradeIsOneLetter` and `NearGradesIllegal` |
| GradeRecords.GradeRecord.ToString | GradeRecord.java:88-92 | definition: course, a space, the year, ": ", the grade; its property is `ToStringShape` |
| GradeRecords.IllegalGradeMessage | GradeRecord.java:28-30 | definition: the exception message, "New record could not be created: " then the course, the grade and the year separated by ", "; `NewGradeRecord` states that a failure carries it |
| GradeRecords.ToStringShape | GradeRecord.java:89-92 | the rendering is the course's rendering, a space, the year (which parseInt reads back from its place), then ": " and the grade |
| Transcripts.BlockAt | Transcript.java:71-74 | each block after the header is three lines |
| Transcripts.Outcomes | Transcript.java:71-81 | there is one outcome per complete block |
| Transcripts.ReadBlock | Transcript.java:72-80 | definition: look the course up, parse the year, then build a record only for a found course; its property is `ReadBlockOutcome` |
| Transcripts.ReadAll | Transcript.java:71-81 | definition: the blocks read in order, stopping at the first failure; its properties are `ReadAllSuccess`, `ReadAllFailure`, `ReadAllFailureStays` and `ReadAllRecords` |
| Transcripts.ParseTranscript | Transcript.java:60-84 | definition: the constructor as a function of the lines and the short-name table; its properties are `ParseTranscriptSuccess` and `ParseTranscriptRecords`, and `NewTranscript` is proved against it |
| Transcripts.OutcomesExtend | Transcript.java:71-81 | reading one more block appends its outcome |
| Transcripts.ReadAllSuccess | Transcript.java:71-81 | the blocks are read without error exactly when every block succeeds |
| Transcripts.ReadAllFailure | Transcript.java:71-81 | a failed read fails with the error of its first failing block |
| Transcripts.ReadAllFailureStays | Transcript.java:71-81 | after a failing block nothing more is read |
| Transcripts.Found | Transcript.java:72-76 | the indices of the blocks whose course was found are in range and strictly increasing |
| Transcripts.FoundMembers | Transcript.java:72-76 | a block is among the found ones exactly when it succeeded with a grade record |
| Transcripts.ReadAllRecords | Transcript.java:71-81 | the records are exactly those of the found blocks, in block order |
| Transcripts.ReadBlockOutcome | Transcript.java:72-76 | a block succeeds exactly when its year parses and a found course has a legal grade; a found course gives the record of its course, year and grade, and a missing one gives nothing; a bad year is Malformed, and an illegal grade on a found course is the grade record's exception |
| Transcripts.ParseTranscriptSuccess | Transcript.java:60-84 | construction succeeds exactly on an empty file, or on a 3-line header followed by complete 3-line blocks that are all accepted |
| Transcripts.ParseTranscriptRecords | Transcript.java:66-81 | on success the header lines are the id, first and last name, and the records are those of the found blocks, in order |
| Transcripts.SkippedBlockIgnored | Transcript.java:72-80 | a block whose course is not found is accepted whatever its grade, and adds no record |
| Transcripts.OccurrenceCreditsCount | Transcript.java:77-79 | a course gives a category its credits times the number of times it lists the category |
| Transcripts.CreditsFor | Transcript.java:76-79 | definition: the credits the grade records give a category, once per occurrence of its code; its properties are `OccurrenceCreditsCount`, `CreditsForAppend` and `CreditsForUnlisted`, and `Transcript.Valid` ties the credit array to it |
| Transcripts.OccurrenceCredits | Transcript.java:77-79 | definition: the credits one course adds to a category, once per occurrence of its code; its property is `OccurrenceCreditsCount` |
| Transcripts.CreditsForAppend | Transcript.java:76-79 | the credits of a category are additive over the grade records |
| Transcripts.CreditsForUnlisted | Transcript.java:77-79 | a category no recorded course lists has zero credits |
| Transcripts.CoursesOf | Transcript.java:111-113 | there is one taken course per grade record |
| Transcripts.CoursesOfMembers | Transcript.java:111-113 | a course is taken exactly when some grade record refers to it |
| Transcripts.Untaken | Transcript.java:119-123 | definition: the listed courses not taken, in list order; its properties are `UntakenMembers` and `UntakenAppend` |
| Transcripts.Sections | Transcript.java:115-125 | definition: one section per unmet category of the given list, with its untaken courses; its properties are `SectionsFor`, `SectionsContent` and `SectionsInEnumOrder` |
| Transcripts.RenderSections | Transcript.java:116-124 | definition: each section's heading followed by its course lines; its property is `RenderSectionsEmpty` |
| Transcripts.Heading | Transcript.java:117-118 | definition: a line break, "To satisfy the ", the title, " requirement take any of: "; `Transcript.RecommendCourses` is proved to emit it once per unmet category |
| Transcripts.CourseLine | Transcript.java:121 | definition: a line break, a tab, then the course's rendering; its property is `CourseLinesSnoc` |
| Transcripts.UntakenMembers | Transcript.java:119-123 | a listed course is recommended exactly when it is not taken |
| Transcripts.UntakenAppend | Transcript.java:119-123 | the filter keeps list order: it distributes over concatenation |
| Transcripts.CourseLinesSnoc | Transcript.java:121 | one more recommended course appends its tab-indented line |
| Transcripts.SectionsFor | Transcript.java:115-118 | there is a section for a category exactly when its credits are below its threshold |
| Transcripts.SectionsContent | Transcript.java:115-124 | each section is for an unmet category and lists its catalog courses that are not taken, in catalog-list order |
| Transcripts.SectionsInEnumOrder | Transcript.java:115 | sections follow the enumeration order, one per category at most |
| Transcripts.SectionsStep | Transcript.java:115-125 | the n-th category adds its section when unmet, and nothing when met |
| Transcripts.RenderSectionsEmpty | Transcript.java:107-126 | the rendering is empty exactly when there are no sections |
| Transcripts.RecommendationsEmpty | Transcript.java:107-126 | the recommendation is the empty string exactly when every category is met |
| Transcripts.CoreTextStep | Transcript.java:215-220 | each category of the enumeration, in order, adds one "title (code): earned/needed" line with its own ordinal's credits |
| Transcripts.TranscriptText | Transcript.java:200-223 | definition: the header, one line per grade record, then the credit summary, in the order the Java concatenates them |
| Transcripts.OrNull | Transcript.java:205-206 | definition: a header field as string concatenation prints it, "null" when unset |
| Transcripts.HeaderText | Transcript.java:205-206 | definition: "Transcript for ", first name, a space, last name, a line break, "id: " and the id; `Transcript.ToString` is proved to start with it |
| Transcripts.CodesText | Transcript.java:210-212 | definition: each code of a course followed by one space, in order; `AppendRecordLine` is proved to emit it |
| Transcripts.RecordLine | Transcript.java:209-212 | definition: a line break, the grade record, " *", then its codes; `AppendRecordLine` is proved to append it |
| Transcripts.CategoryLine | Transcript.java:217-218 | definition: a line break, the title, " (", the code, "): ", the credits in the category's own slot, "/" and the threshold; its property is `CoreTextStep` |
| Transcripts.CoreText | Transcript.java:216-220 | definition: the summary lines of the categories, in their order; its property is `CoreTextStep`, and `Transcript.CoreRequirementsText` is proved equal to it over the enumeration |
| Transcripts.Transcript.constructor | Transcript.java:18-22 | a new transcript has null header fields, no records, and nine zero credit slots |
| Transcripts.Transcript.AddGradeRecord | Transcript.java:76-79 | the record is appended, and each category gains the course's credits once per occurrence, keeping the credits equal to those of the records |
| Transcripts.Transcript.CoursesTaken | Transcript.java:110-113 | the taken courses are the courses of the grade records, in order |
| Transcripts.Transcript.CoreRequirementsText | Transcript.java:215-220 | the summary is the heading, then one line per category in enumeration order |
| Transcripts.Transcript.RecommendCourses | Transcript.java:107-127 | the result is the rendering of one section per unmet category in enumeration order, each listing the category's untaken catalog courses |
| Transcripts.Transcript.ToString | Transcript.java:200-223 | the header, one line per grade record with its codes, then the credit summary |
| Transcripts.AppendRecordLine | Transcript.java:208-212 | appends one grade record's line: the record, " *", then each code followed by a space |
| Transcripts.UntakenStep | Transcript.java:119-123 | a taken course adds nothing to a section, and an untaken one adds its line |
| Transcripts.AppendSection | Transcript.java:116-124 | appends the heading of the category and the lines of its untaken courses |
| Transcripts.NewTranscript | Transcript.java:60-84 | construction fails exactly as the parse of the lines does, with the same error; on success the new transcript holds the parsed header and records, and credits consistent with them |
| Transcripts.ReadBlocks | Transcript.java:71-81 | reads the blocks into the transcript; a failure is the parse's failure, and success means complete blocks all read, giving exactly the parsed records |
| Transcripts.ReadBlockLines | Transcript.java:72-75 | reading a complete block gives that block's outcome; an incomplete last block is Malformed |
| Transcripts.ReadAllStep | Transcript.java:71-81 | a skipped block leaves the records unchanged, and a found one appends its record |
| Transcripts.UnfinishedBlockFails | Transcript.java:71-74 | a file ending inside a block fails as Malformed |
| Transcripts.BlockFails | Transcript.java:72-76 | the first failing block decides the error of the whole construction |

## Left out

- File and `Scanner` I/O: both parsers take the file's lines as a
  `seq<string>`.
- `loadCourses` ignores its `filename` argument and always opens
  `courses.txt`. The model has no file names.
- `Transcript(File)` delegates to the name-based constructor through
  `file.getName()`. It is not modelled: it adds only I/O.
- The GUI, the `main` test drivers and all console printing: these are UI
  and driver glue.
- Courses.Catalog.LoadCourses: the Java load ends with an exception at the
  first bad or short record. The model returns `ok == false` and keeps the
  tables of the records read before it. It does not model the exception
  propagating to the caller.
- Courses.Catalog.GetCourse: it requires a loaded catalog. Before a load
  the Java code would dereference a null table, and its `catch` of
  `IllegalStateException` never fires. Neither is modelled.
- Courses.Catalog.GetCoursesMeetingRequirements: it returns the index list
  by value, so later aliasing through the returned `List` is not
  captured.
- The getters of `Course`, `GradeRecord` and `Transcript`, and
  `getcoursesMeetingRequirements`: they are datatype or class fields read
  directly.
- `Integer.parseInt` on non-ASCII Unicode digits: only ASCII digits are
  accepted.
- Transcripts.Transcript.AddGradeRecord: credit sums use unbounded
  integers and do not model 32-bit `int` wrap-around, which would need
  more than two billion credits.
- Transcripts.Transcript.RecommendCourses: it requires every unmet
  category to have an index list (`IndexCoversUnmet`). The Java code
  iterates the `null` list of an unlisted category and throws a
  `NullPointerException`, which is not modelled.
- Transcripts.NewTranscript: an unparsable year and a file ending inside
  a header or block are both `Malformed`. The distinct Java exception
  types (`NumberFormatException`, `NoSuchElementException`) are not kept
  apart.
- Course identity holds within one load only. `serial` restarts at 0 on
  every load, so a course kept from an earlier load equals the course at
  the same position of a reload of the same file. Java's `contains`
  compares references (Transcript.java:120), so after loading, building a
  transcript, reloading and then recommending, Java would list the taken
  courses again while the model hides them. The model does not capture
  that sequence of calls.

/**
 * The section table and `segment_sections` (src/backend/services/scoring.py),
 * and the `%nl%` split that turns each section's text back into its lines
 * (`get_weighted_score`, same file).
 */
module Sections {
  import opened Wrappers
  import opened Text

  /** The keys of INFO_CATEGORIES. */
  datatype Section = Experience | Education | Skills | Other

  /** A section weight; every weight in the table lies in 1..4. */
  type Weight = w: int | 1 <= w <= 4 witness 1

  function SectionWeight(s: Section): Weight {
    match s
    case Skills => 4
    case Experience => 3
    case Education => 2
    case Other => 1
  }

  /** The weight every job-text keyword gets by default: that of SKILLS. */
  const SkillsWeight: Weight := SectionWeight(Skills)

  function Headers(s: Section): seq<string> {
    match s
    case Skills => ["skills", "technologies", "expertise", "proficiencies", "languages", "tools", "interest"]
    case Experience => ["experience", "employment", "projects", "work history", "responsibilities"]
    case Education => ["education", "enrolled", "academic", "degree", "certification", "qualification",
                       "post-secondary", "bachelor", "master", "doctorate", "phd"]
    case Other => []
  }

  /** The order in which INFO_CATEGORIES is searched for a header. */
  const HeaderPriority: seq<Section> := [Skills, Experience, Education, Other]

  /** The key order of the dictionary `segment_sections` builds and returns. */
  const SectionOrder: seq<Section> := [Experience, Education, Skills, Other]

  /** One of the section's header phrases is a substring of the lower-cased line. */
  predicate HasHeader(s: Section, lowered: string) {
    exists h :: h in Headers(s) && Contains(lowered, h)
  }

  /** The first section of `cats` that has a header phrase in the line. */
  function FirstHeader(cats: seq<Section>, lowered: string): (r: Option<Section>)
    ensures r.Some? ==> r.value in cats && HasHeader(r.value, lowered)
    ensures r.None? ==> forall s :: s in cats ==> !HasHeader(s, lowered)
  {
    if cats == [] then None
    else if HasHeader(cats[0], lowered) then Some(cats[0])
    else FirstHeader(cats[1..], lowered)
  }

  /** The search stops at the first section of `cats` with a header phrase in the line. */
  lemma {:induction false} FirstHeaderAt(cats: seq<Section>, lowered: string, j: nat)
    requires j < |cats| && HasHeader(cats[j], lowered)
    requires forall i :: 0 <= i < j ==> !HasHeader(cats[i], lowered)
    ensures FirstHeader(cats, lowered) == Some(cats[j])
    decreases j
  {
    if j > 0 {
      assert !HasHeader(cats[0], lowered);
      forall i | 0 <= i < j - 1
        ensures !HasHeader(cats[1..][i], lowered)
      {
        assert cats[1..][i] == cats[i + 1];
      }
      FirstHeaderAt(cats[1..], lowered, j - 1);
    }
  }

  /** The search for a header resumed at position `j` of `cats`. */
  lemma FirstHeaderFrom(cats: seq<Section>, j: nat, lowered: string)
    requires j < |cats|
    ensures FirstHeader(cats[j..], lowered) ==
      if HasHeader(cats[j], lowered) then Some(cats[j]) else FirstHeader(cats[j + 1..], lowered)
  {
    assert cats[j..][1..] == cats[j + 1..];
  }

  /** Every section is searched. */
  lemma HeaderPriorityComplete()
    ensures forall s: Section :: s in HeaderPriority
  {
    forall s: Section
      ensures s in HeaderPriority
    {
      match s
      case Skills => assert HeaderPriority[0] == s;
      case Experience => assert HeaderPriority[1] == s;
      case Education => assert HeaderPriority[2] == s;
      case Other => assert HeaderPriority[3] == s;
    }
  }

  /** The section a stripped line is a header of: fewer than five words and a header phrase. */
  function HeaderOf(line: string): (r: Option<Section>)
    ensures r.Some? ==> |Words(line)| < 5 && HasHeader(r.value, Lower(line)) && r.value != Other
    ensures r.None? && |Words(line)| < 5 ==> forall s :: !HasHeader(s, Lower(line))
  {
    HeaderPriorityComplete();
    assert !HasHeader(Other, Lower(line));
    if |Words(line)| < 5 then FirstHeader(HeaderPriority, Lower(line)) else None
  }

  /**
   * A line is a header iff it has fewer than five words and contains a header
   * phrase; SKILLS is tried first, then EXPERIENCE, then EDUCATION, and OTHER,
   * which has no header phrase, is never chosen.
   */
  lemma HeaderRule(line: string)
    ensures HeaderOf(line).Some? <==>
      |Words(line)| < 5 && (HasHeader(Skills, Lower(line)) || HasHeader(Experience, Lower(line)) || HasHeader(Education, Lower(line)))
    ensures HeaderOf(line) == Some(Skills) <==> |Words(line)| < 5 && HasHeader(Skills, Lower(line))
    ensures HeaderOf(line) == Some(Experience) <==>
      |Words(line)| < 5 && !HasHeader(Skills, Lower(line)) && HasHeader(Experience, Lower(line))
    ensures HeaderOf(line) == Some(Education) <==>
      |Words(line)| < 5 && !HasHeader(Skills, Lower(line)) && !HasHeader(Experience, Lower(line))
      && HasHeader(Education, Lower(line))
    ensures HeaderOf(line) != Some(Other)
  {
    var lw := Lower(line);
    assert !HasHeader(Other, lw);
    var p1, p2, p3 := HeaderPriority[1..], HeaderPriority[1..][1..], HeaderPriority[1..][1..][1..];
    assert p1 == [Experience, Education, Other] && p2 == [Education, Other] && p3 == [Other];
    assert FirstHeader(p3, lw) == None by {
      assert p3[1..] == [];
    }
    assert FirstHeader(p2, lw) == if HasHeader(Education, lw) then Some(Education) else None;
    assert FirstHeader(p1, lw) == if HasHeader(Experience, lw) then Some(Experience) else FirstHeader(p2, lw);
    assert FirstHeader(HeaderPriority, lw) == if HasHeader(Skills, lw) then Some(Skills) else FirstHeader(p1, lw);
  }

  // ---------------------------------------------------------------------------
  // The line loop

  /** The state of the loop: the section texts and the `current_section` cursor. */
  datatype Segmentation = Segmentation(sections: map<Section, string>, current: Section)

  /** Every section is a key (and, there being four sections, nothing else is). */
  predicate HasAllSections(m: map<Section, string>) {
    forall s: Section :: s in m
  }

  const EmptySections: map<Section, string> :=
    map[Experience := "", Education := "", Skills := "", Other := ""]

  lemma EmptySectionsComplete()
    ensures HasAllSections(EmptySections)
  {
    forall s: Section
      ensures s in EmptySections
    {
      match s
      case Experience =>
      case Education =>
      case Skills =>
      case Other =>
    }
  }

  /** The line-join delimiter. */
  const Delimiter: string := "%nl%"

  /** Store a line: it becomes the text if the text is still empty, else it follows a delimiter. */
  function AppendLine(text: string, line: string): string {
    if text == [] then line else text + Delimiter + line
  }

  /** One iteration of the loop on a raw line. */
  function Step(seg: Segmentation, rawLine: string): (r: Segmentation)
    requires HasAllSections(seg.sections)
    ensures HasAllSections(r.sections)
    ensures r.current == match HeaderOf(Strip(rawLine)) case Some(s) => s case None => seg.current
  {
    var line := Strip(rawLine);
    match HeaderOf(line)
    case Some(s) => seg.(current := s)
    case None => seg.(sections := seg.sections[seg.current := AppendLine(seg.sections[seg.current], line)])
  }

  /** The state after the loop has run over `lines`. */
  function SegmentLines(lines: seq<string>): (r: Segmentation)
    ensures HasAllSections(r.sections)
  {
    if lines == [] then EmptySectionsComplete(); Segmentation(EmptySections, Other)
    else Step(SegmentLines(lines[..|lines| - 1]), lines[|lines| - 1])
  }

  /** The two outcomes of a step, one per kind of line. */
  lemma StepCases(seg: Segmentation, rawLine: string)
    requires HasAllSections(seg.sections)
    ensures var line := Strip(rawLine);
      Step(seg, rawLine) == match HeaderOf(line)
        case Some(s) => Segmentation(seg.sections, s)
        case None => Segmentation(seg.sections[seg.current := AppendLine(seg.sections[seg.current], line)], seg.current)
  {
  }

  /** One more line is one more step of the loop. */
  lemma SegmentLinesSnoc(lines: seq<string>, i: nat)
    requires i < |lines|
    ensures SegmentLines(lines[..i + 1]) == Step(SegmentLines(lines[..i]), lines[i])
  {
    assert lines[..i + 1][..i] == lines[..i];
  }

  /** What `segment_sections(text)` returns: every section is a key, and text without lines leaves each one empty. */
  function Segmented(text: string): (r: map<Section, string>)
    ensures HasAllSections(r)
  {
    SegmentLines(SplitLines(text)).sections
  }

  /**
   * The inner loop of `segment_sections`: INFO_CATEGORIES is searched in
   * order for a section with a header phrase in the stripped line, the line
   * having fewer than five words, and the search stops at the first one.
   */
  method FindHeader(line: string) returns (found: bool, section: Section)
    ensures found <==> HeaderOf(line).Some?
    ensures found ==> HeaderOf(line) == Some(section)
  {
    found, section := false, Other;
    var fewWords := |Words(line)| < 5;
    var lowered := Lower(line);
    var j := 0;
    while j < |HeaderPriority| && !found
      invariant 0 <= j <= |HeaderPriority|
      invariant found ==> HeaderOf(line) == Some(section)
      invariant !found ==> HeaderOf(line) == if fewWords then FirstHeader(HeaderPriority[j..], lowered) else None
    {
      FirstHeaderFrom(HeaderPriority, j, lowered);
      if fewWords && HasHeader(HeaderPriority[j], lowered) {
        section := HeaderPriority[j];
        found := true;
      }
      j := j + 1;
    }
  }

  /**
   * `segment_sections`: walks the lines with a cursor starting at OTHER; a
   * header line moves the cursor (the inner search stops at the first
   * section whose header matches), any other stripped line is stored under
   * the cursor's section. The result always has exactly the four keys.
   */
  method SegmentSections(text: string) returns (sections: map<Section, string>)
    ensures HasAllSections(sections)
    ensures sections == Segmented(text)
  {
    sections := EmptySections;
    var current := Other;
    var lines := SplitLines(text);
    for i := 0 to |lines|
      invariant Segmentation(sections, current) == SegmentLines(lines[..i])
    {
      SegmentLinesSnoc(lines, i);
      var line := Strip(lines[i]);
      var found, section := FindHeader(line);
      StepCases(Segmentation(sections, current), lines[i]);
      if found {
        current := section;
      } else if sections[current] == "" {
        sections := sections[current := line];
      } else {
        sections := sections[current := sections[current] + Delimiter + line];
      }
    }
    assert lines[..|lines|] == lines;
  }

  /** What `HeaderOf` says of each stripped line: a section for a header line, nothing otherwise. */
  function LineHeaders(lines: seq<string>): (hs: seq<Option<Section>>)
    ensures |hs| == |lines|
  {
    if lines == [] then []
    else LineHeaders(lines[..|lines| - 1]) + [HeaderOf(Strip(lines[|lines| - 1]))]
  }

  lemma {:induction false} LineHeadersAt(lines: seq<string>, i: nat)
    requires i < |lines|
    ensures LineHeaders(lines)[i] == HeaderOf(Strip(lines[i]))
    decreases |lines|
  {
    if i < |lines| - 1 {
      var prev := lines[..|lines| - 1];
      LineHeadersAt(prev, i);
      assert prev[i] == lines[i];
    }
  }

  /** The cursor after a run of lines whose header results are `hs`: the last section found, else OTHER. */
  function CursorOf(hs: seq<Option<Section>>): Section {
    if hs == [] then Other
    else match hs[|hs| - 1]
      case Some(s) => s
      case None => CursorOf(hs[..|hs| - 1])
  }

  /** The cursor `SegmentLines` leaves is the one the header results of the lines give. */
  lemma {:induction false} SegmentLinesCursor(lines: seq<string>)
    ensures SegmentLines(lines).current == CursorOf(LineHeaders(lines))
    decreases |lines|
  {
    if lines != [] {
      var prev := lines[..|lines| - 1];
      SegmentLinesCursor(prev);
      var hs := LineHeaders(lines);
      assert hs[..|hs| - 1] == LineHeaders(prev);
    }
  }

  /** `CursorOf` is the section of the last header result, or OTHER when there is none. */
  lemma {:induction false} CursorOfLast(hs: seq<Option<Section>>, j: nat)
    requires j < |hs| && hs[j].Some?
    requires forall i :: j < i < |hs| ==> hs[i].None?
    ensures CursorOf(hs) == hs[j].value
    decreases |hs|
  {
    if j < |hs| - 1 {
      var prev := hs[..|hs| - 1];
      assert hs[|hs| - 1].None?;
      CursorOfLast(prev, j);
    }
  }

  lemma {:induction false} CursorOfNone(hs: seq<Option<Section>>)
    requires forall i :: 0 <= i < |hs| ==> hs[i].None?
    ensures CursorOf(hs) == Other
    decreases |hs|
  {
    if hs != [] {
      CursorOfNone(hs[..|hs| - 1]);
    }
  }

  /**
   * After a run of lines the cursor is at the section `v` of the last header
   * line `lines[j]`.
   */
  lemma CursorAtLastHeader(lines: seq<string>, j: nat, v: Section)
    requires j < |lines| && HeaderOf(Strip(lines[j])) == Some(v)
    requires forall i :: j < i < |lines| ==> HeaderOf(Strip(lines[i])).None?
    ensures SegmentLines(lines).current == v
  {
    var hs := LineHeaders(lines);
    forall i | j < i < |lines|
      ensures hs[i].None?
    {
      LineHeadersAt(lines, i);
    }
    LineHeadersAt(lines, j);
    CursorOfLast(hs, j);
    SegmentLinesCursor(lines);
  }

  /** A run of lines none of which is a header leaves the cursor at OTHER. */
  lemma CursorWithoutHeader(lines: seq<string>)
    requires forall i :: 0 <= i < |lines| ==> HeaderOf(Strip(lines[i])).None?
    ensures SegmentLines(lines).current == Other
  {
    var hs := LineHeaders(lines);
    forall i | 0 <= i < |lines|
      ensures hs[i].None?
    {
      LineHeadersAt(lines, i);
    }
    CursorOfNone(hs);
    SegmentLinesCursor(lines);
  }

  // ---------------------------------------------------------------------------
  // What each section holds

  /** The stripped non-header lines read while the cursor was at `s`, in order. */
  function StoredLines(lines: seq<string>, s: Section): seq<string> {
    if lines == [] then []
    else
      var prev := lines[..|lines| - 1];
      var line := Strip(lines[|lines| - 1]);
      StoredLines(prev, s) + (if HeaderOf(line).None? && SegmentLines(prev).current == s then [line] else [])
  }

  /** Header lines are never stored. */
  lemma {:induction false} HeaderLinesNotStored(lines: seq<string>, s: Section)
    ensures forall k :: 0 <= k < |StoredLines(lines, s)| ==> HeaderOf(StoredLines(lines, s)[k]).None?
    decreases |lines|
  {
    if lines != [] {
      HeaderLinesNotStored(lines[..|lines| - 1], s);
    }
  }

  /** Stored lines without the empty ones that came while the section was still empty. */
  function DropLeadingEmpty(xs: seq<string>): (r: seq<string>)
    ensures r != [] ==> r[0] != []
    ensures forall k :: 0 <= k < |r| ==> r[k] in xs
  {
    if xs != [] && xs[0] == [] then DropLeadingEmpty(xs[1..]) else xs
  }

  lemma {:induction false} DropLeadingEmptySnoc(xs: seq<string>, x: string)
    ensures DropLeadingEmpty(xs + [x]) ==
      if DropLeadingEmpty(xs) == [] then (if x == [] then [] else [x]) else DropLeadingEmpty(xs) + [x]
    decreases |xs|
  {
    if xs == [] {
      assert [x][1..] == [];
    } else {
      assert (xs + [x])[1..] == xs[1..] + [x];
      DropLeadingEmptySnoc(xs[1..], x);
    }
  }

  lemma JoinNonEmpty(xs: seq<string>, d: string)
    requires xs != [] && xs[0] != []
    ensures Join(xs, d) != []
  {
    if |xs| > 1 {
      assert Join(xs, d)[0] == xs[0][0];
    }
  }

  /** The loop touches the cursor's section only, and only on a non-header line. */
  lemma StepText(seg: Segmentation, rawLine: string, s: Section)
    requires HasAllSections(seg.sections)
    ensures Step(seg, rawLine).sections[s] ==
      if HeaderOf(Strip(rawLine)).None? && seg.current == s then AppendLine(seg.sections[s], Strip(rawLine))
      else seg.sections[s]
  {
  }

  lemma JoinAppendLine(xs: seq<string>, line: string)
    ensures Join(DropLeadingEmpty(xs + [line]), Delimiter) == AppendLine(Join(DropLeadingEmpty(xs), Delimiter), line)
  {
    var e := DropLeadingEmpty(xs);
    DropLeadingEmptySnoc(xs, line);
    if e != [] {
      JoinNonEmpty(e, Delimiter);
      JoinSnoc(e, line, Delimiter);
    }
  }

  /**
   * Each section's text is its stored lines, with the leading empty ones
   * dropped, joined by the delimiter.
   */
  lemma {:induction false} SectionTextIsJoin(lines: seq<string>, s: Section)
    ensures SegmentLines(lines).sections[s] == Join(DropLeadingEmpty(StoredLines(lines, s)), Delimiter)
    decreases |lines|
  {
    if lines != [] {
      var prev := lines[..|lines| - 1];
      var raw := lines[|lines| - 1];
      SectionTextIsJoin(prev, s);
      var seg := SegmentLines(prev);
      assert SegmentLines(lines) == Step(seg, raw);
      StepText(seg, raw, s);
      var line := Strip(raw);
      if HeaderOf(line).None? && seg.current == s {
        assert StoredLines(lines, s) == StoredLines(prev, s) + [line];
        JoinAppendLine(StoredLines(prev, s), line);
      } else {
        assert StoredLines(lines, s) == StoredLines(prev, s) + [];
        assert StoredLines(prev, s) + [] == StoredLines(prev, s);
      }
    }
  }

  // ---------------------------------------------------------------------------
  // text.split("%nl%")

  /** `{section: text.split("%nl%") for section, text in resume_sections.items()}`. */
  function SplitSections(sections: map<Section, string>): (r: map<Section, seq<string>>)
    ensures r.Keys == sections.Keys
  {
    map s | s in sections :: SplitOn(sections[s], Delimiter)
  }

  /**
   * A line the delimiter cannot be confused with: it does not contain "%nl%"
   * and does not end with "%nl" (that tail and the next delimiter's "%" would
   * read as a delimiter one character early).
   */
  predicate NlSafe(line: string) {
    FreeOf(line, Delimiter) && !(|line| >= 3 && line[|line| - 3..] == "%nl")
  }

  lemma NlSafeNoEarlyDelimiter(line: string)
    requires NlSafe(line)
    ensures NoEarlyDelimiter(line, Delimiter)
  {
    forall i | 0 <= i < |line|
      ensures !OccursAt(line + Delimiter, Delimiter, i)
    {
      NoDelimiterAt(line, i);
    }
  }

  /** No delimiter starts at position `i` of a safe line followed by a delimiter. */
  lemma NoDelimiterAt(line: string, i: nat)
    requires NlSafe(line) && i < |line|
    ensures !OccursAt(line + Delimiter, Delimiter, i)
  {
    if i + 4 <= |line| {
      assert (line + Delimiter)[i..i + 4] == line[i..i + 4];
      assert !OccursAt(line, Delimiter, i);
    } else {
      NoDelimiterAtTail(line, i);
    }
  }

  /** The case of `NoDelimiterAt` where the candidate overlaps the appended delimiter. */
  lemma NoDelimiterAtTail(line: string, i: nat)
    requires i < |line| < i + 4 && !(|line| >= 3 && line[|line| - 3..] == "%nl")
    ensures !OccursAt(line + Delimiter, Delimiter, i)
  {
    var d, n := Delimiter, |line|;
    if i == n - 1 {
      assert (line + d)[i..i + 4][1] == '%';
    } else if i == n - 2 {
      assert (line + d)[i..i + 4][2] == '%';
    } else {
      assert (line + d)[i..i + 4] == line[n - 3..] + "%";
      assert (line[n - 3..] + "%")[..3] == line[n - 3..];
      assert d[..3] == "%nl";
    }
  }

  /**
   * Splitting a section's text on "%nl%" gives back the lines stored in it,
   * minus the empty lines that came while it was still empty; a section
   * with nothing stored splits into [""].
   */
  lemma SplitGivesStoredLines(text: string, s: Section)
    requires forall k :: 0 <= k < |StoredLines(SplitLines(text), s)| ==> NlSafe(StoredLines(SplitLines(text), s)[k])
    ensures var e := DropLeadingEmpty(StoredLines(SplitLines(text), s));
      SplitSections(Segmented(text))[s] == if e == [] then [""] else e
  {
    var stored := StoredLines(SplitLines(text), s);
    var e := DropLeadingEmpty(stored);
    SectionTextIsJoin(SplitLines(text), s);
    if e != [] {
      forall k | 0 <= k < |e|
        ensures NlSafe(e[k])
      {
        var j :| 0 <= j < |stored| && stored[j] == e[k];
      }
      forall k | 0 <= k < |e| - 1
        ensures NoEarlyDelimiter(e[k], Delimiter)
      {
        NlSafeNoEarlyDelimiter(e[k]);
      }
      SplitOnJoin(e, Delimiter);
    }
  }
}

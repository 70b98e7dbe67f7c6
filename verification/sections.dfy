/** `parse_resume_sections`: the heading fallback chains and the sentinel
    mapping around the regex-based `extract_section_text`. The regex
    machinery itself (heading and stop patterns, the education/experience
    mention patterns, the skills sub-header pattern) is uninterpreted: it is
    supplied as functions in `Extractors`. */
module Sections {
  import opened Types
  import opened Text
  import opened Seqs

  /** Every heading `extract_section_text` stops at. */
  const AllSections: seq<string> := [
    "SKILLS", "TECHNICAL SKILLS", "EXPERIENCE", "WORK HISTORY", "PROFESSIONAL EXPERIENCE",
    "EDUCATION", "PROJECTS", "CERTIFICATION", "ACHIEVEMENTS", "SUMMARY", "CONTACT", "REFERENCES"
  ]

  /** Headings tried, in order, for each field. */
  const EducationHeadings: seq<string> := ["EDUCATION", "ACADEMIC QUALIFICATIONS"]
  const ExperienceHeadings: seq<string> := ["PROFESSIONAL EXPERIENCE", "WORK EXPERIENCE", "EXPERIENCE"]
  const SkillsHeadings: seq<string> := ["SKILLS", "TECHNICAL SKILLS"]

  /** What `extract_section_text` returns when the heading is absent. */
  const NotFound: string := "Not Found"

  /** What an output field holds when nothing was extracted. */
  const NotSpecified: string := "Not specified"

  /** The regex steps, as functions of their input text.
      - `sectionText(text, heading, stops)`: `extract_section_text`; returns
        the section's content or `NotFound`.
      - `educationMatches(t)`: `re.findall` of the degree pattern.
      - `experienceMatches(t)`: the first group of each `re.findall` match of
        the role pattern.
      - `removeSubHeaders(t)`: the `SUB_HEADER_PATTERN` substitution. */
  datatype Extractors = Extractors(
    sectionText: (string, string, seq<string>) -> string,
    educationMatches: string -> seq<string>,
    experienceMatches: string -> seq<string>,
    removeSubHeaders: string -> string)

  function Section(ex: Extractors, text: string, heading: string): string {
    ex.sectionText(text, heading, AllSections)
  }

  /** Tries `headings` in order: the first section found, or `NotFound`
      when every attempt fails. */
  function FirstFound(ex: Extractors, text: string, headings: seq<string>): (r: string)
    requires |headings| > 0
    ensures r == NotFound <==> forall i :: 0 <= i < |headings| ==> Section(ex, text, headings[i]) == NotFound
    ensures r != NotFound ==>
      exists i :: 0 <= i < |headings| && r == Section(ex, text, headings[i])
        && forall j :: 0 <= j < i ==> Section(ex, text, headings[j]) == NotFound
    decreases |headings|
  {
    var t := Section(ex, text, headings[0]);
    if t != NotFound || |headings| == 1 then t
    else
      var r := FirstFound(ex, text, headings[1..]);
      assert forall i :: 1 <= i < |headings| ==> headings[i] == headings[1..][i - 1];
      r
  }

  function EducationText(ex: Extractors, text: string): string {
    FirstFound(ex, text, EducationHeadings)
  }

  function ExperienceText(ex: Extractors, text: string): string {
    FirstFound(ex, text, ExperienceHeadings)
  }

  function SkillsText(ex: Extractors, text: string): string {
    FirstFound(ex, text, SkillsHeadings)
  }

  function NonBlank(m: string): bool {
    m != ""
  }

  /** `[m.strip() for m in ms if m.strip()]`: the stripped mentions that
      are not empty, in order. */
  function StripNonEmpty(ms: seq<string>): (r: seq<string>)
    ensures |r| <= |ms|
    ensures forall i :: 0 <= i < |r| ==> r[i] != ""
    ensures |r| == 0 <==> forall i :: 0 <= i < |ms| ==> AllSpace(ms[i])
    decreases |ms|
  {
    if |ms| == 0 then []
    else
      var rest := StripNonEmpty(ms[1..]);
      assert forall i :: 1 <= i < |ms| ==> ms[i] == ms[1..][i - 1];
      var head := Strip(ms[0]);
      if head != "" then [head] + rest else rest
  }

  /** `[m.strip() for m in ms]`. */
  function StripAll(ms: seq<string>): (r: seq<string>)
    ensures |r| == |ms|
    ensures forall i :: 0 <= i < |ms| ==> r[i] == Strip(ms[i])
  {
    seq(|ms|, i requires 0 <= i < |ms| => Strip(ms[i]))
  }

  /** The comprehension with a condition is the plain comprehension
      followed by dropping the empty strings. */
  lemma {:induction false} StripNonEmptyIsFilter(ms: seq<string>)
    ensures StripNonEmpty(ms) == Filter(StripAll(ms), NonBlank)
    decreases |ms|
  {
    if |ms| > 0 {
      StripNonEmptyIsFilter(ms[1..]);
      var all := StripAll(ms);
      assert all[0] == Strip(ms[0]);
      assert all[1..] == StripAll(ms[1..]);
    }
  }

  function EducationMentions(ex: Extractors, text: string): seq<string> {
    StripNonEmpty(ex.educationMatches(EducationText(ex, text)))
  }

  function ExperienceMentions(ex: Extractors, text: string): seq<string> {
    StripAll(ex.experienceMatches(ExperienceText(ex, text)))
  }

  /** The skills section with sub-headers removed and line-break runs
      flattened to `", "`. */
  function UniversalSkills(ex: Extractors, text: string): string {
    Strip(CollapseLineBreaks(Strip(ex.removeSubHeaders(SkillsText(ex, text))), ", "))
  }

  /** `parse_resume_sections`. */
  function ParseResumeSections(ex: Extractors, text: string): (r: ParsedSections)
    ensures r.education != "" && r.experience != "" && r.skills != ""
    ensures r.skills != NotFound
  {
    var u := UniversalSkills(ex, text);
    ParsedSections(
      skills := if u != "" && u != NotFound then u else NotSpecified,
      experience := OrDefault(Join(ExperienceMentions(ex, text), " | "), NotSpecified),
      education := OrDefault(Join(EducationMentions(ex, text), " | "), NotSpecified))
  }

  /** Education is "Not specified" exactly when no non-blank degree mention
      was found; otherwise it is the mentions joined by " | ". */
  lemma EducationField(ex: Extractors, text: string)
    ensures var ms := EducationMentions(ex, text);
      && (|ms| == 0 ==> ParseResumeSections(ex, text).education == NotSpecified)
      && (|ms| > 0 ==> ParseResumeSections(ex, text).education == Join(ms, " | ") != "")
  {
    JoinEmptyIff(EducationMentions(ex, text), " | ");
  }

  /** Experience is "Not specified" when there are no role mentions, or a
      single one that strips to nothing; otherwise it is the mentions joined
      by " | ". */
  lemma ExperienceField(ex: Extractors, text: string)
    ensures var ms := ExperienceMentions(ex, text);
      && (|ms| == 0 || (|ms| == 1 && ms[0] == "") ==> ParseResumeSections(ex, text).experience == NotSpecified)
      && (|ms| >= 2 || (|ms| == 1 && ms[0] != "") ==> ParseResumeSections(ex, text).experience == Join(ms, " | ") != "")
  {
    JoinEmptyIff(ExperienceMentions(ex, text), " | ");
  }

  /** The education content comes from "EDUCATION" when that heading is
      found, and from "ACADEMIC QUALIFICATIONS" only when it is not. */
  lemma EducationHeadingOrder(ex: Extractors, text: string)
    ensures Section(ex, text, "EDUCATION") != NotFound ==>
      EducationText(ex, text) == Section(ex, text, "EDUCATION")
    ensures Section(ex, text, "EDUCATION") == NotFound ==>
      EducationText(ex, text) == Section(ex, text, "ACADEMIC QUALIFICATIONS")
  {
    var r := EducationText(ex, text);
    if r != NotFound {
      var i :| 0 <= i < 2 && r == Section(ex, text, EducationHeadings[i])
        && forall j :: 0 <= j < i ==> Section(ex, text, EducationHeadings[j]) == NotFound;
    } else {
      assert Section(ex, text, EducationHeadings[1]) == NotFound;
    }
  }

  /** Experience tries "PROFESSIONAL EXPERIENCE", then "WORK EXPERIENCE",
      then "EXPERIENCE", taking the first heading found. */
  lemma ExperienceHeadingOrder(ex: Extractors, text: string)
    ensures Section(ex, text, "PROFESSIONAL EXPERIENCE") != NotFound ==>
      ExperienceText(ex, text) == Section(ex, text, "PROFESSIONAL EXPERIENCE")
    ensures (Section(ex, text, "PROFESSIONAL EXPERIENCE") == NotFound
             && Section(ex, text, "WORK EXPERIENCE") != NotFound) ==>
      ExperienceText(ex, text) == Section(ex, text, "WORK EXPERIENCE")
    ensures (Section(ex, text, "PROFESSIONAL EXPERIENCE") == NotFound
             && Section(ex, text, "WORK EXPERIENCE") == NotFound) ==>
      ExperienceText(ex, text) == Section(ex, text, "EXPERIENCE")
  {
    var h := ExperienceHeadings;
    var r := ExperienceText(ex, text);
    if r != NotFound {
      var i :| 0 <= i < 3 && r == Section(ex, text, h[i])
        && forall j :: 0 <= j < i ==> Section(ex, text, h[j]) == NotFound;
    } else {
      assert Section(ex, text, h[2]) == NotFound;
    }
  }

  /** Skills tries "SKILLS" before "TECHNICAL SKILLS". */
  lemma SkillsHeadingOrder(ex: Extractors, text: string)
    ensures Section(ex, text, "SKILLS") != NotFound ==>
      SkillsText(ex, text) == Section(ex, text, "SKILLS")
    ensures Section(ex, text, "SKILLS") == NotFound ==>
      SkillsText(ex, text) == Section(ex, text, "TECHNICAL SKILLS")
  {
    var r := SkillsText(ex, text);
    if r != NotFound {
      var i :| 0 <= i < 2 && r == Section(ex, text, SkillsHeadings[i])
        && forall j :: 0 <= j < i ==> Section(ex, text, SkillsHeadings[j]) == NotFound;
    } else {
      assert Section(ex, text, SkillsHeadings[1]) == NotFound;
    }
  }

  /** The sub-header pattern ends in a line break, so it leaves a string
      without line breaks alone. */
  ghost predicate SubHeaderRemovalSound(f: string -> string) {
    forall s :: NoLineBreak(s) ==> f(s) == s
  }

  /** When neither skills heading is found, the skills field is
      "Not specified" rather than the "Not Found" sentinel. */
  lemma SkillsNotFoundIsNotSpecified(ex: Extractors, text: string)
    requires SubHeaderRemovalSound(ex.removeSubHeaders)
    requires SkillsText(ex, text) == NotFound
    ensures ParseResumeSections(ex, text).skills == NotSpecified
  {
    assert NoLineBreak(NotFound);
    assert ex.removeSubHeaders(NotFound) == NotFound;
    StripUnpadded(NotFound);
    CollapseIdentity(NotFound, ", ");
    assert UniversalSkills(ex, text) == NotFound;
  }

  /** The flattened skills never contain a line break. */
  lemma SkillsSingleLine(ex: Extractors, text: string)
    ensures NoLineBreak(ParseResumeSections(ex, text).skills)
  {
    var c := CollapseLineBreaks(Strip(ex.removeSubHeaders(SkillsText(ex, text))), ", ");
    CollapseRemovesLineBreaks(Strip(ex.removeSubHeaders(SkillsText(ex, text))), ", ");
    StripKeepsNoLineBreak(c);
    assert UniversalSkills(ex, text) == Strip(c);
    NotSpecifiedSingleLine();
  }

  lemma NotSpecifiedSingleLine()
    ensures NoLineBreak(NotSpecified)
  {
  }

  lemma StripKeepsNoLineBreak(s: string)
    requires NoLineBreak(s)
    ensures NoLineBreak(Strip(s))
  {
    var k := LeadingSpace(s);
    var e := TrailingStart(s[k..]);
    if e > 0 {
      assert Strip(s) == s[k..][..e];
      assert forall i :: 0 <= i < e ==> Strip(s)[i] == s[k + i];
    }
  }
}

/**
 * The keyword classifier that suggests a department for a complaint text: the text
 * is lower-cased, then the first keyword group with a match picks its department;
 * with no match the complaint goes to Student Affairs.
 */
module Prediction {
  import opened Domain
  import opened Text

  const ItWords: seq<string> := ["laptop", "password", "portal", "wifi", "crashing", "sign in"]
  const FinancialWords: seq<string> := ["fee", "scholarship", "payment", "financial"]
  const AcademicWords: seq<string> := ["course", "grades", "professor", "exam", "major", "academic"]

  const Academic: string := Departments[0]
  const Financial: string := Departments[1]
  const It: string := Departments[2]
  const StudentAffairs: string := Departments[3]

  /** The text contains one of the keywords, tried left to right. */
  function MentionsAny(text: string, words: seq<string>): (b: bool)
    ensures b <==> exists k :: 0 <= k < |words| && Contains(text, words[k])
  {
    if words == [] then false
    else if Contains(text, words[0]) then true
    else
      var b := MentionsAny(text, words[1..]);
      assert b ==> exists k :: 0 <= k < |words| && Contains(text, words[k]) by {
        if b {
          var k :| 0 <= k < |words[1..]| && Contains(text, words[1..][k]);
          assert words[1..][k] == words[k + 1];
        }
      }
      assert (exists k :: 0 <= k < |words| && Contains(text, words[k])) ==> b by {
        if exists k :: 0 <= k < |words| && Contains(text, words[k]) {
          var k :| 0 <= k < |words| && Contains(text, words[k]);
          assert k != 0 && words[1..][k - 1] == words[k];
        }
      }
      b
  }

  /** `predictDepartment`. */
  function PredictDepartment(complaintText: string): (d: string)
    ensures d in Departments
  {
    var text := ToLower(complaintText);
    if MentionsAny(text, ItWords) then It
    else if MentionsAny(text, FinancialWords) then Financial
    else if MentionsAny(text, AcademicWords) then Academic
    else StudentAffairs
  }

  /** A keyword group and the department it picks. */
  datatype Rule = Rule(words: seq<string>, department: string)

  /** The rules in the order they are tried. */
  const Rules: seq<Rule> := [Rule(ItWords, It), Rule(FinancialWords, Financial), Rule(AcademicWords, Academic)]

  /** The department of the first rule with a keyword in the text, or the default. */
  function FirstMatch(rules: seq<Rule>, text: string, default: string): string {
    if rules == [] then default
    else if MentionsAny(text, rules[0].words) then rules[0].department
    else FirstMatch(rules[1..], text, default)
  }

  /** The classifier is the first-match rule list over the lower-cased text, defaulting to Student Affairs. */
  lemma PredictIsFirstMatch(complaintText: string)
    ensures PredictDepartment(complaintText) == FirstMatch(Rules, ToLower(complaintText), StudentAffairs)
  {
    var text := ToLower(complaintText);
    var academicOnly := [Rule(AcademicWords, Academic)];
    var fromFinancial := [Rule(FinancialWords, Financial)] + academicOnly;
    assert academicOnly[1..] == [];
    assert FirstMatch(academicOnly, text, StudentAffairs) ==
             if MentionsAny(text, AcademicWords) then Academic else StudentAffairs;
    assert fromFinancial[1..] == academicOnly;
    assert Rules[1..] == fromFinancial;
  }

  /**
   * What each department is predicted for: IT whenever an IT keyword appears; Financial
   * Support for a financial keyword without an IT one; Academic Support and Resources for
   * an academic keyword without either; Student Affairs for none of them.
   */
  lemma PredictionCases(complaintText: string)
    ensures var text := ToLower(complaintText);
            && (PredictDepartment(complaintText) == It <==> MentionsAny(text, ItWords))
            && (PredictDepartment(complaintText) == Financial <==>
                  !MentionsAny(text, ItWords) && MentionsAny(text, FinancialWords))
            && (PredictDepartment(complaintText) == Academic <==>
                  !MentionsAny(text, ItWords) && !MentionsAny(text, FinancialWords) && MentionsAny(text, AcademicWords))
            && (PredictDepartment(complaintText) == StudentAffairs <==>
                  !MentionsAny(text, ItWords) && !MentionsAny(text, FinancialWords) && !MentionsAny(text, AcademicWords))
  {
    DepartmentsDistinct();
  }

  /** A keyword written anywhere in the text, in any letter case, takes effect. */
  lemma KeywordAnyCase(complaintText: string, k: nat)
    requires k < |ItWords| && Contains(ToLower(complaintText), ItWords[k])
    ensures PredictDepartment(complaintText) == It
    ensures PredictDepartment(ToUpper(complaintText)) == It
  {
    LowerOfUpper(complaintText);
  }

  /** Letter case does not matter: upper- or lower-casing the text first changes no prediction. */
  lemma PredictionIgnoresCase(complaintText: string)
    ensures PredictDepartment(ToUpper(complaintText)) == PredictDepartment(complaintText)
    ensures PredictDepartment(ToLower(complaintText)) == PredictDepartment(complaintText)
  {
    LowerOfUpper(complaintText);
    LowerIdempotent(complaintText);
  }
}

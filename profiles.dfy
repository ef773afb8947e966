/**
 * The branch and year tables of the portal and the user profile record
 * (campusconnect/models.py): which branches are computing, which stream a
 * profile belongs to, and how a branch code is shown.
 */
module Profiles {
  import opened Requests

  const BranchChoices: seq<Choice> := [
    Choice("aiml", "AI & ML"),
    Choice("cse", "CSE"),
    Choice("csd", "CSD"),
    Choice("cst", "CST"),
    Choice("it", "IT"),
    Choice("ece", "ECE"),
    Choice("eee", "EEE"),
    Choice("ce", "Civil Engineering"),
    Choice("me", "Mechanical")
  ]

  const ComputingBranches: seq<string> := ["aiml", "cse", "csd", "cst", "it"]
  const NonComputingBranches: seq<string> := ["ece", "eee", "ce", "me"]

  /** Announcement.TARGET_BRANCH_CHOICES: the wildcard followed by every branch. */
  const TargetBranchChoices: seq<Choice> := [Choice("all", "All Branches")] + BranchChoices

  /** The codes of a choices list, in order. */
  function Codes(choices: seq<Choice>): seq<string> {
    seq(|choices|, i requires 0 <= i < |choices| => choices[i].code)
  }

  /** A code is listed iff some entry of the choices carries it. */
  lemma CodesMembership(choices: seq<Choice>, code: string)
    ensures code in Codes(choices) <==> exists i :: 0 <= i < |choices| && choices[i].code == code
  {
    var codes := Codes(choices);
    assert |codes| == |choices|;
    assert forall i :: 0 <= i < |choices| ==> codes[i] == choices[i].code;
    if code in codes {
      var k :| 0 <= k < |codes| && codes[k] == code;
      assert choices[k].code == code;
    }
  }

  predicate DistinctCodes(choices: seq<Choice>) {
    forall i, j :: 0 <= i < j < |choices| ==> choices[i].code != choices[j].code
  }

  /** The stored profile of one user. Nullable columns are Options. */
  datatype Profile = Profile(
    role: string,
    phone: Option<string>,
    rollNo: Option<string>,
    year: Option<string>,
    branch: Option<string>,
    linkedin: Option<string>,
    codechef: Option<string>,
    leetcode: Option<string>,
    avatar: Option<Blob>,
    createdAt: int)

  /** `UserProfile.objects.create(user=...)` with every column at its default. */
  function NewProfile(now: int): (p: Profile)
    ensures p.role == "student"
    ensures p.phone.None? && p.rollNo.None? && p.year.None? && p.branch.None?
    ensures p.linkedin.None? && p.codechef.None? && p.leetcode.None? && p.avatar.None?
    ensures p.createdAt == now
  {
    Profile("student", None, None, None, None, None, None, None, None, now)
  }

  /** `UserProfile.is_computing`: membership of the branch in the computing list. */
  predicate IsComputing(branch: Option<string>) {
    branch.Some? && branch.value in ComputingBranches
  }

  predicate IsNonComputing(branch: Option<string>) {
    branch.Some? && branch.value in NonComputingBranches
  }

  /**
   * The computing branches are the first five rows of the branch table (its
   * "Computing" block) and the non-computing ones the remaining four.
   */
  lemma ComputingIsFirstBlock(branch: Option<string>)
    ensures IsComputing(branch) <==> branch.Some? && branch.value in Codes(BranchChoices[..5])
    ensures IsNonComputing(branch) <==> branch.Some? && branch.value in Codes(BranchChoices[5..])
  {
    assert Codes(BranchChoices[..5]) == ComputingBranches;
    assert Codes(BranchChoices[5..]) == NonComputingBranches;
  }

  /** `UserProfile.stream`. */
  function Stream(branch: Option<string>): (r: string)
    ensures r == "computing" <==> IsComputing(branch)
    ensures r == "non-computing" <==> IsNonComputing(branch)
    ensures r == "unknown" <==> !(branch.Some? && branch.value in Codes(BranchChoices))
  {
    BranchListsPartitionChoices();
    if IsComputing(branch) then "computing"
    else if IsNonComputing(branch) then "non-computing"
    else "unknown"
  }

  /** The two branch lists share no code and together list exactly the branch codes. */
  lemma BranchListsPartitionChoices()
    ensures forall b :: b in ComputingBranches ==> b !in NonComputingBranches
    ensures forall b :: b in Codes(BranchChoices) <==> b in ComputingBranches || b in NonComputingBranches
  {
    var codes := Codes(BranchChoices);
    assert codes == ComputingBranches + NonComputingBranches;
  }

  /** The label of the first choice whose code is `code`, if any. */
  function LabelOf(choices: seq<Choice>, code: string): (r: Option<string>)
    ensures r.None? <==> forall i :: 0 <= i < |choices| ==> choices[i].code != code
    ensures r.Some? ==> exists i :: 0 <= i < |choices| && choices[i] == Choice(code, r.value)
  {
    if choices == [] then None
    else if choices[0].code == code then Some(choices[0].name)
    else
      var r := LabelOf(choices[1..], code);
      assert r.Some? ==> exists i :: 0 <= i < |choices| && choices[i] == Choice(code, r.value) by {
        if r.Some? {
          var i :| 0 <= i < |choices[1..]| && choices[1..][i] == Choice(code, r.value);
          assert choices[i + 1] == Choice(code, r.value);
        }
      }
      assert r.None? ==> forall i :: 0 <= i < |choices| ==> choices[i].code != code by {
        if r.None? {
          forall i | 0 <= i < |choices| ensures choices[i].code != code {
            if i > 0 { assert choices[i] == choices[1..][i - 1]; }
          }
        }
      }
      r
  }

  /** With distinct codes, the lookup finds the label paired with the code. */
  lemma {:induction false} LabelOfDistinct(choices: seq<Choice>, i: nat)
    requires DistinctCodes(choices) && i < |choices|
    ensures LabelOf(choices, choices[i].code) == Some(choices[i].name)
  {
    var r := LabelOf(choices, choices[i].code);
    var k :| 0 <= k < |choices| && choices[k] == Choice(choices[i].code, r.value);
    assert k == i;
  }

  /** No branch code is listed twice. */
  lemma BranchCodesDistinct()
    ensures DistinctCodes(BranchChoices)
  {
  }

  /** `UserProfile.get_branch_display_name`. */
  function BranchDisplayName(branch: Option<string>): (r: string)
    ensures forall i :: 0 <= i < |BranchChoices| && branch == Some(BranchChoices[i].code) ==>
              r == BranchChoices[i].name
    ensures branch.None? || branch == Some("") ==> r == "—"
    ensures branch.Some? && branch.value != "" && branch.value !in Codes(BranchChoices) ==>
              r == branch.value
  {
    BranchCodesDistinct();
    CodesMembership(BranchChoices, if branch.Some? then branch.value else "");
    forall i | 0 <= i < |BranchChoices| ensures LabelOf(BranchChoices, BranchChoices[i].code) == Some(BranchChoices[i].name) {
      LabelOfDistinct(BranchChoices, i);
    }
    var found := if branch.Some? then LabelOf(BranchChoices, branch.value) else None;
    if found.Some? then found.value
    else if branch.None? || branch.value == "" then "—"
    else branch.value
  }

  /** The announcement branch targets are the wildcard plus every branch, each code once. */
  lemma TargetBranchChoicesExtendBranches()
    ensures Codes(TargetBranchChoices) == ["all"] + Codes(BranchChoices)
    ensures "all" !in Codes(BranchChoices)
    ensures DistinctCodes(TargetBranchChoices)
  {
    assert Codes(TargetBranchChoices) == ["all"] + Codes(BranchChoices);
    assert Codes(BranchChoices) == ComputingBranches + NonComputingBranches;
  }
}

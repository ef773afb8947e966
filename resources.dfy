/**
 * The study-resource catalogue (resources/views.py): per-subject counts over
 * a fixed list of six subjects, the resources of one subject newest first,
 * and uploads stamped with the uploader.
 */
module Resources {
  import opened Requests
  import opened Ordering

  /** One stored study resource (resources/models.py). */
  datatype Resource = Resource(
    title: string,
    subject: string,
    description: string,
    file: Blob,
    uploadedBy: UserId,
    uploadedAt: int)

  /** What a valid upload form yields before the uploader is filled in. */
  datatype Draft = Draft(title: string, subject: string, description: string, file: Blob)

  /** The subject table of `resource_access`, in the order the page lists it. */
  const AccessSubjects: seq<Choice> := [
    Choice("OOPS", "Through Java"),
    Choice("ADS", "Algorithm Design"),
    Choice("DMGT", "Discrete Math & GT"),
    Choice("UHV", "Universal Human Values"),
    Choice("AI", "Artificial Intelligence"),
    Choice("Python", "Python Programming")
  ]

  /** The codes of `Resource.SUBJECT_CHOICES`. */
  const SubjectCodes: seq<string> := ["OOPS", "ADS", "DMGT", "UHV", "AI", "Python"]

  /** One line of the catalogue page: code, name and number of resources. */
  datatype SubjectCount = SubjectCount(code: string, name: string, count: nat)

  function UploadedAt(r: Resource): int {
    r.uploadedAt
  }

  /** `Resource.objects.filter(subject=subject)`, in store order. */
  function OfSubject(rows: seq<Resource>, subject: string): (r: seq<Resource>)
    ensures forall x :: multiset(r)[x] == if x.subject == subject then multiset(rows)[x] else 0
    ensures |r| <= |rows|
  {
    if rows == [] then []
    else
      assert rows == [rows[0]] + rows[1..];
      var rest := OfSubject(rows[1..], subject);
      if rows[0].subject == subject then [rows[0]] + rest else rest
  }

  /** `Resource.objects.filter(subject=code).count()`. */
  function CountOf(rows: seq<Resource>, code: string): nat {
    |OfSubject(rows, code)|
  }

  /**
   * The loop of `resource_access`: one (code, name, count) line per entry of
   * the subject table, in table order.
   */
  method SubjectCounts(rows: seq<Resource>, table: seq<Choice>) returns (lines: seq<SubjectCount>)
    ensures |lines| == |table|
    ensures forall k :: 0 <= k < |lines| ==>
              && lines[k].code == table[k].code
              && lines[k].name == table[k].name
              && lines[k].count == CountOf(rows, table[k].code)
  {
    lines := [];
    var i := 0;
    while i < |table|
      invariant 0 <= i <= |table|
      invariant |lines| == i
      invariant forall k :: 0 <= k < i ==>
                  lines[k] == SubjectCount(table[k].code, table[k].name, CountOf(rows, table[k].code))
    {
      var subject := table[i];
      var count := CountOf(rows, subject.code);
      lines := lines + [SubjectCount(subject.code, subject.name, count)];
      i := i + 1;
    }
  }

  /** The sum of the counts on a list of catalogue lines. */
  function Total(lines: seq<SubjectCount>): nat {
    if lines == [] then 0 else lines[0].count + Total(lines[1..])
  }

  /** The number of rows counted under any of `codes`. */
  function CountAll(rows: seq<Resource>, codes: seq<string>): nat {
    if codes == [] then 0 else CountOf(rows, codes[0]) + CountAll(rows, codes[1..])
  }

  /** How many entries of `codes` are `code`. */
  function Hits(code: string, codes: seq<string>): nat {
    if codes == [] then 0 else (if codes[0] == code then 1 else 0) + Hits(code, codes[1..])
  }

  /** A code occurring once in a distinct list is hit exactly once; an absent one never. */
  lemma {:induction false} HitsOfDistinct(code: string, codes: seq<string>)
    requires forall i, j :: 0 <= i < j < |codes| ==> codes[i] != codes[j]
    ensures Hits(code, codes) == if code in codes then 1 else 0
  {
    if codes != [] {
      HitsOfDistinct(code, codes[1..]);
      assert code in codes <==> code == codes[0] || code in codes[1..];
      if code == codes[0] {
        assert forall j :: 0 <= j < |codes[1..]| ==> codes[1..][j] == codes[j + 1] != code;
      }
    }
  }

  /** Counting a nonempty store: the first row is counted once per matching code. */
  lemma {:induction false} CountAllFirst(rows: seq<Resource>, codes: seq<string>)
    requires rows != []
    ensures CountAll(rows, codes) == Hits(rows[0].subject, codes) + CountAll(rows[1..], codes)
  {
    if codes != [] {
      CountAllFirst(rows, codes[1..]);
      assert rows == [rows[0]] + rows[1..];
    }
  }

  /** With distinct codes covering every row's subject, the counts add up to the store size. */
  lemma {:induction false} CountAllCovers(rows: seq<Resource>, codes: seq<string>)
    requires forall i, j :: 0 <= i < j < |codes| ==> codes[i] != codes[j]
    requires forall k :: 0 <= k < |rows| ==> rows[k].subject in codes
    ensures CountAll(rows, codes) == |rows|
  {
    if rows == [] {
      CountAllEmpty(codes);
    } else {
      CountAllFirst(rows, codes);
      HitsOfDistinct(rows[0].subject, codes);
      assert forall k :: 0 <= k < |rows[1..]| ==> rows[1..][k] == rows[k + 1];
      CountAllCovers(rows[1..], codes);
    }
  }

  lemma {:induction false} CountAllEmpty(codes: seq<string>)
    ensures CountAll([], codes) == 0
  {
    if codes != [] {
      CountAllEmpty(codes[1..]);
    }
  }

  /** The catalogue's codes are exactly the model's subject codes, each once. */
  lemma AccessSubjectsMatchChoices()
    ensures |AccessSubjects| == |SubjectCodes|
    ensures forall k :: 0 <= k < |AccessSubjects| ==> AccessSubjects[k].code == SubjectCodes[k]
    ensures forall i, j :: 0 <= i < j < |SubjectCodes| ==> SubjectCodes[i] != SubjectCodes[j]
  {
  }

  /** When every stored resource has one of the six subjects, the page's counts add up to the store size. */
  lemma {:induction false} SubjectCountsCoverStore(rows: seq<Resource>, lines: seq<SubjectCount>)
    requires forall k :: 0 <= k < |rows| ==> rows[k].subject in SubjectCodes
    requires |lines| == |AccessSubjects|
    requires forall k :: 0 <= k < |lines| ==> lines[k].count == CountOf(rows, AccessSubjects[k].code)
    ensures Total(lines) == |rows|
  {
    AccessSubjectsMatchChoices();
    TotalIsCountAll(rows, lines, SubjectCodes);
    CountAllCovers(rows, SubjectCodes);
  }

  lemma {:induction false} TotalIsCountAll(rows: seq<Resource>, lines: seq<SubjectCount>, codes: seq<string>)
    requires |lines| == |codes|
    requires forall k :: 0 <= k < |lines| ==> lines[k].count == CountOf(rows, codes[k])
    ensures Total(lines) == CountAll(rows, codes)
  {
    if lines != [] {
      TotalIsCountAll(rows, lines[1..], codes[1..]);
    }
  }

  /** `resource_subject`: the resources of one subject, newest upload first. */
  function SubjectResources(rows: seq<Resource>, subject: string): (r: seq<Resource>)
    ensures SortedDesc(r, UploadedAt)
    ensures forall x :: multiset(r)[x] == if x.subject == subject then multiset(rows)[x] else 0
  {
    SortDesc(OfSubject(rows, subject), UploadedAt)
  }

  /** A resource is listed for a subject iff it is stored and has that subject. */
  lemma SubjectResourcesIff(rows: seq<Resource>, subject: string, x: Resource)
    ensures x in SubjectResources(rows, subject) <==> x in rows && x.subject == subject
  {
    var r := SubjectResources(rows, subject);
    assert x in r <==> multiset(r)[x] > 0;
    assert x in rows <==> multiset(rows)[x] > 0;
  }

  /** A subject no stored resource carries, such as a code outside the table, lists nothing. */
  lemma UnknownSubjectIsEmpty(rows: seq<Resource>, subject: string)
    requires forall k :: 0 <= k < |rows| ==> rows[k].subject in SubjectCodes
    requires subject !in SubjectCodes
    ensures SubjectResources(rows, subject) == []
  {
    var r := SubjectResources(rows, subject);
    forall x: Resource ensures multiset(r)[x] == 0 {
      if x.subject == subject {
        assert x !in rows;
      }
    }
    assert multiset(r) == multiset{};
  }

  /** The stored resources of the catalogue app. */
  class Catalogue {
    var resources: seq<Resource>

    constructor ()
      ensures resources == []
    {
      resources := [];
    }

    /** `resource_access`, behind `@login_required`. */
    method Access(requester: Option<UserId>) returns (outcome: Outcome, lines: seq<SubjectCount>)
      ensures requester.None? ==> outcome == LoginRequired && lines == []
      ensures requester.Some? ==>
                && outcome == FormShown
                && |lines| == |AccessSubjects|
                && forall k :: 0 <= k < |lines| ==>
                     lines[k] == SubjectCount(AccessSubjects[k].code, AccessSubjects[k].name,
                                              CountOf(resources, AccessSubjects[k].code))
    {
      if requester.None? {
        return LoginRequired, [];
      }
      lines := SubjectCounts(resources, AccessSubjects);
      outcome := FormShown;
    }

    /** `resource_subject`, behind `@login_required`. */
    method BySubject(requester: Option<UserId>, subject: string) returns (outcome: Outcome, listed: seq<Resource>)
      ensures requester.None? ==> outcome == LoginRequired && listed == []
      ensures requester.Some? ==>
                && outcome == FormShown
                && SortedDesc(listed, UploadedAt)
                && forall x :: multiset(listed)[x] == if x.subject == subject then multiset(resources)[x] else 0
    {
      if requester.None? {
        return LoginRequired, [];
      }
      listed := SubjectResources(resources, subject);
      outcome := FormShown;
    }

    /** `resource_upload`: a valid POSTed form is stored with the requester as uploader. */
    method Upload(requester: Option<UserId>, isPost: bool, formValid: bool, draft: Draft, now: int)
      returns (outcome: Outcome)
      modifies this
      ensures requester.None? ==> outcome == LoginRequired && resources == old(resources)
      ensures requester.Some? && !isPost ==> outcome == FormShown && resources == old(resources)
      ensures requester.Some? && isPost && !formValid ==>
                outcome == Invalid(FormErrors) && resources == old(resources)
      ensures requester.Some? && isPost && formValid ==>
                && outcome == Done
                && resources == old(resources) + [Resource(draft.title, draft.subject, draft.description,
                                                           draft.file, requester.value, now)]
    {
      if requester.None? {
        return LoginRequired;
      }
      if !isPost {
        return FormShown;
      }
      if !formValid {
        return Invalid(FormErrors);
      }
      var stamped := Resource(draft.title, draft.subject, draft.description, draft.file, requester.value, now);
      resources := resources + [stamped];
      outcome := Done;
    }
  }
}

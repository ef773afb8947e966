# Campus Connect: announcement board, accounts and resource catalogue

A Dafny model of the request-handling core of the Campus Connect portal, a
Django site for students and faculty. The model covers:

- **The announcement board.** The listing view composes optional filters:
  a case-insensitive search in title or body, and the year, stream, branch
  and priority targets, where `'all'` acts as a wildcard. It then splits the
  result into pinned and regular announcements. Faculty can post, edit and
  delete announcements.
- **Accounts and profiles.** Signup runs its checks in a fixed order.
  Profile pages create a missing profile on the spot. Profile editing
  depends on the role and parses the faculty "experience" field.
- **The branch tables of the profile model.** These give the computing and
  non-computing classification, the stream and the display name of a branch.
- **The study-resource catalogue.** It counts resources per subject, lists
  one subject newest first, and stamps each upload with its uploader.

Layout, one module per file:

- `requests.dfy` (`Requests`) defines request parameters, `Option`, and the
  `Outcome` of a view. A redirect, a rendered form or a flash message
  becomes one outcome value.
- `text.dfy` (`Text`) models Python's `str.strip()`, ASCII case folding for
  `__icontains`, substring search, `str.isdigit()` and `int()`.
- `ordering.dfy` (`Ordering`) sorts in descending key order (`order_by('-field')`).
- `profiles.dfy` (`Profiles`) holds the choice tables, the `UserProfile`
  record and its properties.
- `board.dfy` (`Board`) holds the `Announcement` record, its default
  ordering, the listing filters and the listing itself.
- `portal.dfy` (`Portal`) holds the class `Campus`, the store of users,
  profiles and announcements. Its methods are the views that change the
  store: signup, post, edit, delete, profile and edit-profile. It also
  holds the listing view.
- `resources.dfy` (`Resources`) holds the `Resource` record, the
  per-subject counts, the subject listing and the class `Catalogue` with
  its views.

Behaviour of the source worth noting:

- A non-faculty `POST` to delete a missing key gets a 404. The key is
  looked up before the role is checked (campusconnect/views.py:229-236).
- Signup passes whatever `role` string the form sends to the profile
  (campusconnect/views.py:39,58). The view does not limit it to `student`
  or `faculty`; only the column's length limit, which the model leaves out,
  bounds it.
- An edit form that lacks `priority` or a `target_*` field ends in a
  database error, not a validation message. `POST.get` yields `None`, and
  saving it into a NOT NULL column fails (campusconnect/views.py:204-208,213).
  The model reports `IntegrityError` and leaves the store unchanged.
- Only the two profile pages create a missing profile. The announcement
  pages treat a user without a profile as not faculty.

## Model

| member | source | states |
|---|---|---|
| Text.Strip | campusconnect/views.py:107 | the stripped string has no whitespace at either end and is no longer than the input |
| Text.StripPadded | campusconnect/views.py:159-160 | stripping whitespace-padding of any length off a trimmed core gives back exactly that core |
| Text.StripSplits | campusconnect/views.py:32-36 | every string is its stripped form with only whitespace before and after it, so strip removes nothing else |
| Text.StripEmptyIffAllSpace | campusconnect/views.py:107 | stripping leaves nothing iff the string is all whitespace |
| Text.StripIdempotent | campusconnect/views.py:107 | stripping an already stripped string changes nothing |
| Text.Contains | campusconnect/views.py:114 | true iff the pattern occurs in the string at some position |
| Text.ContainsIgnoringCaseOfLower | campusconnect/views.py:114 | a case-insensitive match does not depend on the case of the search term |
| Text.DigitsValueOfDecimal | campusconnect/views.py:284 | `int(str(n)) == n` for every natural number n |
| Ordering.SortDesc | resources/views.py:42 | the result is in descending key order and is a permutation of the input |
| Profiles.NewProfile | campusconnect/models.py:36-45 | a new profile has role `student` and every nullable column empty |
| Profiles.ComputingIsFirstBlock | campusconnect/models.py:47-49 | `is_computing` holds iff the branch is one of the first five rows of the branch table (its computing block); the non-computing branches are the remaining four |
| Profiles.Stream | campusconnect/models.py:51-57 | `computing` iff the branch is a computing branch, `non-computing` iff a non-computing one, `unknown` iff it is None or not a branch code |
| Profiles.BranchListsPartitionChoices | campusconnect/models.py:5-20 | the computing and non-computing lists are disjoint and together list exactly the codes of the branch table |
| Profiles.LabelOf | campusconnect/models.py:59-62 | the linear search finds nothing iff no entry has the code; what it finds is the label of an entry with that code |
| Profiles.LabelOfDistinct | campusconnect/models.py:59-62 | when codes are distinct, the search returns the label paired with the code |
| Profiles.BranchCodesDistinct | campusconnect/models.py:5-17 | no branch code appears twice in the branch table |
| Profiles.BranchDisplayName | campusconnect/models.py:59-63 | a known code shows its label; None or `''` shows `—`; any other code shows itself |
| Profiles.TargetBranchChoicesExtendBranches | campusconnect/models.py:87 | the announcement branch targets are `all` followed by every branch code, with no code repeated |
| Board.NewAnnouncement | campusconnect/models.py:89-99 | a new announcement has priority `normal`, is not pinned, has no image and targets `all` for year, stream and branch |
| Board.DefaultOrder | campusconnect/models.py:101-102 | the rows in default order: pinned before unpinned, newest first within each, and a permutation of the table |
| Board.Select | campusconnect/views.py:116 | one filter keeps each row satisfying the criterion exactly as often as it is stored, and drops every other row |
| Board.SelectSound | campusconnect/views.py:122 | every row a filter keeps is stored and satisfies the criterion |
| Board.SelectAll | campusconnect/views.py:113-122 | chained filters keep exactly the rows satisfying every criterion, with their multiplicities |
| Board.SelectKeepsOrder | campusconnect/views.py:124-125 | filtering rows in default order keeps them in default order |
| Board.SelectAllKeepsOrder | campusconnect/views.py:113-122 | a chain of filters keeps the default order |
| Board.PinnedSplit | campusconnect/views.py:124-125 | the pinned part and the unpinned part together are the filtered rows, nothing lost or duplicated |
| Board.ActiveCriteriaMembers | campusconnect/views.py:113-122 | a filter is applied iff its parameter is non-empty |
| Board.ActiveCriteriaMeanMatches | campusconnect/views.py:113-122 | passing every applied filter is the same as matching the query: each non-empty parameter is met, and `all` meets any year, stream or branch |
| Board.QueryOf | campusconnect/views.py:107-111 | the search term is stored stripped, and it is empty (no search filter) iff the parameter is missing or all whitespace |
| Board.ListAnnouncements | campusconnect/views.py:105-131 | `pinned` holds only stored pinned announcements and `regular` only stored unpinned ones |
| Board.FilteredPartIsStored | campusconnect/views.py:124-125 | each part of the filtered table split by `is_pinned` holds only stored rows with that pin state |
| Board.ListingMatchesQuery | campusconnect/views.py:105-131 | the listing shows each matching stored announcement as often as it is stored and no other; `total` counts exactly what is shown |
| Board.ListedIff | campusconnect/views.py:107-125 | an announcement is listed iff it is stored and matches the stripped search and the other filters |
| Board.ListingSplitsByPin | campusconnect/views.py:124-125 | `pinned` holds only pinned rows and `regular` only unpinned ones, each newest first |
| Board.PinnedPartNewestFirst | campusconnect/models.py:101-102 | the pinned or the unpinned part of default-ordered rows is newest first |
| Board.UnfilteredListsAll | campusconnect/views.py:107-122 | with every parameter empty (a whitespace-only search counts as empty) the listing is the whole table and `total` is its size |
| Portal.AddUserKeepsUnique | campusconnect/views.py:47-57 | adding a user whose username is not taken keeps usernames unique |
| Portal.UpdateUserKeepsUnique | campusconnect/views.py:270-273 | rewriting names and email of a user keeps usernames unique |
| Portal.SignupUser | campusconnect/views.py:32-35 | the new user's username, email and names are stored stripped; the username is empty iff the field is missing or all whitespace |
| Portal.SignupProblem | campusconnect/views.py:41-52 | the first failing check in order: password mismatch, password shorter than 6, username taken, email taken; no problem iff all pass |
| Portal.SignupProfile | campusconnect/views.py:58 | the new profile has the requested role (default `student`) and the stripped phone; every other column is at its default |
| Portal.PostedAnnouncement | campusconnect/views.py:159-176 | the posted row has stripped title and body, the requester as author, `created_at` now, and `normal`/`all`/not pinned for every choice field the form lacks |
| Portal.PostedDefaults | campusconnect/views.py:159-176 | a post that sends only title and body creates an announcement equal to the model's defaults |
| Portal.PostedPinnedIffChecked | campusconnect/views.py:162 | a posted announcement is pinned iff the checkbox value is `on` |
| Portal.EditKeepsIdentityAndImage | campusconnect/views.py:202-213 | an edit saves iff priority and every target field are sent; it keeps key, author and creation time; the image changes only when a new file is sent |
| Portal.IndexOf | campusconnect/views.py:199 | the lookup finds a position holding the key, or nothing iff no row has the key |
| Portal.RemoveAtDropsOnlyThatKey | campusconnect/views.py:237 | deleting a row removes that key and keeps every other row; keys stay unique |
| Portal.ReplaceKeepsOthers | campusconnect/views.py:213 | saving an edited row changes that row only; keys stay unique |
| Portal.NonEmptyOrNone | campusconnect/views.py:286 | `value or None`: None iff the value is empty, the value otherwise |
| Portal.EditedUser | campusconnect/views.py:270-273 | editing a profile never changes the username; names and email are stored stripped |
| Portal.EditedProfileFrame | campusconnect/views.py:275-294 | profile editing never changes role or creation time; a faculty profile keeps its student columns; the avatar changes only with a new file; linkedin is None iff it is blank |
| Portal.ParseExperience | campusconnect/views.py:283-284 | experience parses to a number iff the stripped field is nonempty and all digits |
| Portal.ParseExperienceOfDecimal | campusconnect/views.py:283-284 | a number in decimal, with whitespace around it, parses back to that number |
| Portal.Campus.Signup | campusconnect/views.py:28-61 | a signed-in user is sent away; a rejected form changes nothing; success adds exactly one user and one profile under a fresh key |
| Portal.Campus.PostAnnouncement | campusconnect/views.py:143-180 | only faculty post; a faculty GET shows the form; a blank title or body creates nothing; a faculty POST with both present appends exactly the posted announcement and changes nothing else |
| Portal.Campus.EditAnnouncement | campusconnect/views.py:183-219 | only faculty edit; a missing key is a 404; a faculty GET shows the form; a faculty POST on a stored key saves iff every choice field is sent, replacing only that row, and otherwise fails with the store unchanged |
| Portal.Campus.DeleteAnnouncement | campusconnect/views.py:222-242 | GET deletes nothing; the key is looked up before the role check; a faculty POST on a stored key removes exactly that row, and nothing else removes anything |
| Portal.Campus.Announcements | campusconnect/views.py:93-140 | a signed-in user gets the filtered listing; the faculty flag is false for a user without a profile |
| Portal.Campus.ProfileView | campusconnect/views.py:247-257 | a missing profile is created with defaults; an existing one is untouched |
| Portal.Campus.EditProfile | campusconnect/views.py:260-305 | the profile is created if missing; a POST rewrites the user's names and email and the role-dependent profile columns |
| Resources.OfSubject | resources/views.py:18 | the filter keeps each resource of the subject as often as it is stored, and no other resource |
| Resources.SubjectCounts | resources/views.py:16-19 | the loop yields one line per table entry, in table order, each with its code, its name and the number of stored resources of that code |
| Resources.CountAllCovers | resources/views.py:17-18 | when distinct codes cover every row's subject, the per-code counts add up to the number of rows |
| Resources.AccessSubjectsMatchChoices | resources/models.py:5-12 | the catalogue page lists the codes of the model's subject choices, in order, each once |
| Resources.SubjectCountsCoverStore | resources/views.py:16-19 | when every resource has one of the six subjects, the page's counts add up to the number of stored resources |
| Resources.SubjectResources | resources/views.py:42 | exactly the resources of that subject, newest upload first |
| Resources.SubjectResourcesIff | resources/views.py:42 | a resource is listed iff it is stored and has that subject |
| Resources.UnknownSubjectIsEmpty | resources/views.py:42 | when every stored resource has one of the six subjects, a subject outside the choices lists nothing |
| Resources.Catalogue.Access | resources/views.py:6-23 | login required; otherwise the six per-subject counts over the stored resources |
| Resources.Catalogue.BySubject | resources/views.py:40-46 | login required; otherwise that subject's resources, newest first |
| Resources.Catalogue.Upload | resources/views.py:25-38 | login required; GET and an invalid form store nothing; a valid POST appends one resource whose uploader is the requester |

## Left out

- Authentication, sessions, logout and password hashing (campusconnect/views.py:13-25,64-66) are framework machinery. A request carries the requester's key, or none when anonymous. Passwords are only compared and measured.
- `create_user` normalisation is not modelled. Neither is the `ValueError` it raises for an empty username, so the model accepts an empty username as a new user.
- Portal.Campus.EditProfile: email uniqueness is only checked at signup, as in the source. Editing a profile can give two users the same email, so the model keeps unique usernames as an invariant but not unique emails.
- Portal.EditedProfile does not persist the faculty-only `teacher_id`, `department`, `experience` and `subjects_teaching` (campusconnect/views.py:281-285). `UserProfile` declares no such columns, so whether they are saved cannot be determined. The experience parse is modelled on its own as Portal.ParseExperience.
- Unicode is not modelled. Whitespace, digits and case folding are ASCII only. Python's `isspace`, `isdigit` and the database's case-insensitive match accept more characters.
- Column lengths are not modelled: `max_length` on `role` (10), `phone` (15), `year` (1), `title` (200) and the other character columns. A database that enforces them refuses a longer value on save; the model stores any string.
- Uploaded files are opaque tokens: announcement images, avatars and resource files. Storage, paths and sizes are not modelled.
- Resources.Catalogue.Upload does not check the subject against `SUBJECT_CHOICES` (resources/models.py:5-12); that check belongs to the unmodelled form validation. So Resources.SubjectCountsCoverStore and Resources.UnknownSubjectIsEmpty hold only for a store whose subjects are all among the six codes.
- Resources.Catalogue.Upload treats whether the upload form validates as a boolean input. The form class is not part of this model.
- Ordering.SortDesc fixes one order for rows with equal keys. The database may return ties in any order, so the contracts promise only sortedness and a permutation.
- Timestamps (`auto_now_add`, `auto_now`) are a `now` parameter of each view.
- Rendering, templates, redirects and flash messages are collapsed into the `Outcome` of a view.
- Goals, quizzes, library records, complaints, permissions and the chat assistant are routed in Campus_connect/urls.py. Their views are not part of this model.
- URL routing and admin registration are declarative configuration.
- The `home`, `study` and `compiler` views only render a page, and `dashboard` only redirects. The stray import after `edit_profile`'s return (campusconnect/views.py:306-307) is dead code.
- Concurrent requests are not modelled. Each view runs as one atomic step on the store.

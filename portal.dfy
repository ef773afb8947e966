/**
 * The state-changing views of campusconnect/views.py over one store of
 * users, profiles and announcements: signup, posting, editing and deleting
 * announcements (faculty only), the profile page with its lazy profile
 * creation, and profile editing.
 */
module Portal {
  import opened Requests
  import opened Text
  import opened Profiles
  import opened Board

  /** The columns of Django's User that these views read or write. */
  datatype User = User(username: string, email: string, firstName: string, lastName: string)

  const MinPasswordLength: nat := 6

  function Usernames(users: map<UserId, User>): set<string> {
    set u | u in users.Values :: u.username
  }

  function Emails(users: map<UserId, User>): set<string> {
    set u | u in users.Values :: u.email
  }

  predicate UniqueUsernames(users: map<UserId, User>) {
    forall x, y :: x in users && y in users && x != y ==> users[x].username != users[y].username
  }

  /** Adding a user whose username is new keeps usernames unique. */
  lemma AddUserKeepsUnique(users: map<UserId, User>, uid: UserId, u: User)
    requires UniqueUsernames(users) && uid !in users && u.username !in Usernames(users)
    ensures UniqueUsernames(users[uid := u])
  {
    forall x | x in users ensures users[x].username != u.username {
      assert users[x] in users.Values;
    }
  }

  /** Rewriting a user's row without touching the username keeps usernames unique. */
  lemma UpdateUserKeepsUnique(users: map<UserId, User>, uid: UserId, u: User)
    requires UniqueUsernames(users) && uid in users && u.username == users[uid].username
    ensures UniqueUsernames(users[uid := u])
  {
  }

  /** `request.user.profile.role == 'faculty'`; a user without a profile is not faculty. */
  predicate IsFaculty(profiles: map<UserId, Profile>, uid: UserId) {
    uid in profiles && profiles[uid].role == "faculty"
  }

  // ---------------------------------------------------------------------
  // Signup
  // ---------------------------------------------------------------------

  /**
   * The first check of the signup view that fails, in the view's order:
   * passwords differ, password too short, username taken, email taken.
   */
  function SignupProblem(usernames: set<string>, emails: set<string>, username: string, email: string,
                         password1: string, password2: string): (r: Option<Problem>)
    ensures r == Some(PasswordsDiffer) <==> password1 != password2
    ensures r == Some(PasswordTooShort) <==> password1 == password2 && |password1| < MinPasswordLength
    ensures r == Some(UsernameTaken) <==>
              password1 == password2 && |password1| >= MinPasswordLength && username in usernames
    ensures r == Some(EmailTaken) <==>
              password1 == password2 && |password1| >= MinPasswordLength && username !in usernames && email in emails
    ensures r.None? <==>
              password1 == password2 && |password1| >= MinPasswordLength && username !in usernames && email !in emails
  {
    if password1 != password2 then Some(PasswordsDiffer)
    else if |password1| < MinPasswordLength then Some(PasswordTooShort)
    else if username in usernames then Some(UsernameTaken)
    else if email in emails then Some(EmailTaken)
    else None
  }

  /** The user row the signup form describes; every field is stored stripped. */
  function SignupUser(form: Params): (u: User)
    ensures Trimmed(u.username) && Trimmed(u.email) && Trimmed(u.firstName) && Trimmed(u.lastName)
    ensures u.username == "" <==> AllSpace(Param(form, "username", ""))
  {
    StripEmptyIffAllSpace(Param(form, "username", ""));
    User(Strip(Param(form, "username", "")), Strip(Param(form, "email", "")),
         Strip(Param(form, "first_name", "")), Strip(Param(form, "last_name", "")))
  }

  /** The profile created at signup: the requested role (default 'student') and the phone. */
  function SignupProfile(form: Params, now: int): (p: Profile)
    ensures p.role == Param(form, "role", "student")
    ensures p.phone == Some(Strip(Param(form, "phone", "")))
    ensures p == NewProfile(now).(role := p.role, phone := p.phone)
  {
    NewProfile(now).(role := Param(form, "role", "student"), phone := Some(Strip(Param(form, "phone", ""))))
  }

  function FormSignupProblem(users: map<UserId, User>, form: Params): Option<Problem> {
    var u := SignupUser(form);
    SignupProblem(Usernames(users), Emails(users), u.username, u.email,
                  Param(form, "password1", ""), Param(form, "password2", ""))
  }

  // ---------------------------------------------------------------------
  // Announcements: composing, editing, finding and removing rows
  // ---------------------------------------------------------------------

  /**
   * The announcement `post_announcement` creates from its form: stripped
   * title and body, the requester as author, and each choice field as sent
   * or, when the form lacks it, at the column's default.
   */
  function PostedAnnouncement(id: nat, form: Params, image: Option<Blob>, author: UserId, now: int): (a: Announcement)
    ensures a.id == id && a.author == author && a.image == image && a.createdAt == now && a.updatedAt == now
    ensures Trimmed(a.title) && Trimmed(a.body)
    ensures "priority" !in form ==> a.priority == "normal"
    ensures "target_year" !in form ==> a.targetYear == "all"
    ensures "target_stream" !in form ==> a.targetStream == "all"
    ensures "target_branch" !in form ==> a.targetBranch == "all"
    ensures "is_pinned" !in form ==> !a.isPinned
  {
    Announcement(id, Strip(Param(form, "title", "")), Strip(Param(form, "body", "")), image, author,
                 Param(form, "priority", "normal"), Checked(form, "is_pinned"),
                 Param(form, "target_year", "all"), Param(form, "target_stream", "all"),
                 Param(form, "target_branch", "all"), now, now)
  }

  /**
   * A post whose form names only title and body, with no image, is the
   * model's default announcement: priority 'normal', not pinned, every target 'all'.
   */
  lemma PostedDefaults(id: nat, form: Params, author: UserId, now: int)
    requires form.Keys == {"title", "body"}
    ensures PostedAnnouncement(id, form, None, author, now) ==
            NewAnnouncement(id, Strip(form["title"]), Strip(form["body"]), author, now)
  {
    assert "priority" !in form && "is_pinned" !in form;
    assert "target_year" !in form && "target_stream" !in form && "target_branch" !in form;
  }

  /** The posted announcement is pinned exactly when the checkbox value is 'on'. */
  lemma PostedPinnedIffChecked(id: nat, form: Params, image: Option<Blob>, author: UserId, now: int)
    ensures PostedAnnouncement(id, form, image, author, now).isPinned <==>
            "is_pinned" in form && form["is_pinned"] == "on"
  {
  }

  /**
   * The row `edit_announcement` saves, or None when a field the form lacks
   * would be saved as NULL into a NOT NULL column and the save fails.
   */
  function EditedAnnouncement(a: Announcement, form: Params, image: Option<Blob>, now: int): Option<Announcement> {
    var priority := OptParam(form, "priority");
    var year := OptParam(form, "target_year");
    var stream := OptParam(form, "target_stream");
    var branch := OptParam(form, "target_branch");
    if priority.None? || year.None? || stream.None? || branch.None? then None
    else Some(a.(title := Strip(Param(form, "title", "")), body := Strip(Param(form, "body", "")),
                 priority := priority.value, isPinned := Checked(form, "is_pinned"),
                 targetYear := year.value, targetStream := stream.value, targetBranch := branch.value,
                 image := if image.Some? then image else a.image, updatedAt := now))
  }

  /**
   * Editing keeps the key, the author, the creation time and (unless a new
   * file comes with the form) the image; it saves iff every choice field is present.
   */
  lemma EditKeepsIdentityAndImage(a: Announcement, form: Params, image: Option<Blob>, now: int)
    ensures var e := EditedAnnouncement(a, form, image, now);
      && (e.Some? <==> "priority" in form && "target_year" in form && "target_stream" in form && "target_branch" in form)
      && (e.Some? ==> e.value.id == a.id && e.value.author == a.author && e.value.createdAt == a.createdAt)
      && (e.Some? ==> e.value.image == if image.Some? then image else a.image)
      && (e.Some? ==> e.value.isPinned == Checked(form, "is_pinned") && e.value.updatedAt == now)
  {
  }

  predicate UniqueIds(rows: seq<Announcement>) {
    forall i, j :: 0 <= i < j < |rows| ==> rows[i].id != rows[j].id
  }

  /** `get_object_or_404(Announcement, pk=id)`: the position of the row with that key. */
  function IndexOf(rows: seq<Announcement>, id: nat): (r: Option<nat>)
    ensures r.Some? ==> r.value < |rows| && rows[r.value].id == id
    ensures r.None? <==> forall i :: 0 <= i < |rows| ==> rows[i].id != id
  {
    if rows == [] then None
    else if rows[0].id == id then Some(0)
    else
      var r := IndexOf(rows[1..], id);
      assert r.None? ==> forall i :: 0 <= i < |rows| ==> rows[i].id != id by {
        if r.None? {
          forall i | 0 <= i < |rows| ensures rows[i].id != id {
            if i > 0 { assert rows[i] == rows[1..][i - 1]; }
          }
        }
      }
      if r.None? then None else Some(r.value + 1)
  }

  /** The table after deleting the row at position i. */
  function RemoveAt(rows: seq<Announcement>, i: nat): seq<Announcement>
    requires i < |rows|
  {
    rows[..i] + rows[i + 1..]
  }

  /** Deleting a row removes exactly that key and keeps every other row, in order. */
  lemma {:induction false} RemoveAtDropsOnlyThatKey(rows: seq<Announcement>, i: nat)
    requires UniqueIds(rows) && i < |rows|
    ensures var r := RemoveAt(rows, i);
      && |r| == |rows| - 1
      && UniqueIds(r)
      && IndexOf(r, rows[i].id).None?
      && (forall a :: a in r <==> a in rows && a.id != rows[i].id)
  {
    var r := RemoveAt(rows, i);
    assert forall k :: 0 <= k < |r| ==> r[k] == if k < i then rows[k] else rows[k + 1];
    forall a | a in rows && a.id != rows[i].id ensures a in r {
      var k :| 0 <= k < |rows| && rows[k] == a;
      if k < i { assert r[k] == a; } else { assert k > i; assert r[k - 1] == a; }
    }
  }

  /** Saving an edited row changes that row and no other; keys stay unique. */
  lemma {:induction false} ReplaceKeepsOthers(rows: seq<Announcement>, i: nat, b: Announcement)
    requires UniqueIds(rows) && i < |rows| && b.id == rows[i].id
    ensures var r := rows[i := b];
      && UniqueIds(r)
      && IndexOf(r, b.id) == Some(i)
      && (forall k :: 0 <= k < |r| && k != i ==> r[k] == rows[k])
  {
    var r := rows[i := b];
    var j := IndexOf(r, b.id);
    assert j.Some? by { assert r[i].id == b.id; }
    assert j.value == i;
  }

  // ---------------------------------------------------------------------
  // Profiles
  // ---------------------------------------------------------------------

  /** `value or None` on a string: an empty string becomes None. */
  function NonEmptyOrNone(s: string): (r: Option<string>)
    ensures r.None? <==> s == ""
    ensures r.Some? ==> r.value == s
  {
    if s == "" then None else Some(s)
  }

  /** The user row after `edit_profile`: names and email, stripped; the username never changes. */
  function EditedUser(u: User, form: Params): (e: User)
    ensures e.username == u.username
    ensures Trimmed(e.email) && Trimmed(e.firstName) && Trimmed(e.lastName)
  {
    u.(firstName := Strip(Param(form, "first_name", "")),
       lastName := Strip(Param(form, "last_name", "")),
       email := Strip(Param(form, "email", "")))
  }

  /** The profile row after `edit_profile`; which columns change depends on the role. */
  function EditedProfile(p: Profile, form: Params, avatar: Option<Blob>): Profile {
    var shared := p.(phone := Some(Strip(Param(form, "phone", ""))),
                     avatar := if avatar.Some? then avatar else p.avatar,
                     linkedin := NonEmptyOrNone(Strip(Param(form, "linkedin", ""))));
    if p.role == "faculty" then shared
    else shared.(rollNo := Some(Strip(Param(form, "roll_no", ""))),
                 year := Some(Param(form, "year", "")),
                 branch := Some(Param(form, "branch", "")),
                 codechef := Some(Strip(Param(form, "codechef", ""))),
                 leetcode := Some(Strip(Param(form, "leetcode", ""))))
  }

  /**
   * Editing a profile never changes its role or creation time; a faculty
   * profile keeps its student columns; the avatar changes only with a new file.
   */
  lemma EditedProfileFrame(p: Profile, form: Params, avatar: Option<Blob>)
    ensures var e := EditedProfile(p, form, avatar);
      && e.role == p.role && e.createdAt == p.createdAt
      && (p.role == "faculty" ==>
            e.rollNo == p.rollNo && e.year == p.year && e.branch == p.branch
            && e.codechef == p.codechef && e.leetcode == p.leetcode)
      && (p.role != "faculty" ==> e.branch == Some(Param(form, "branch", "")))
      && e.avatar == (if avatar.Some? then avatar else p.avatar)
      && (e.linkedin.None? <==> Strip(Param(form, "linkedin", "")) == "")
  {
  }

  /**
   * `int(exp) if exp.isdigit() else None` on the stripped experience field.
   * `''.isdigit()` is False, so an empty field gives None.
   */
  function ParseExperience(raw: string): (r: Option<nat>)
    ensures r.Some? <==> Strip(raw) != [] && AllDigits(Strip(raw))
  {
    var e := Strip(raw);
    if e != [] && AllDigits(e) then Some(DigitsValue(e)) else None
  }

  /** A number written in decimal, with any whitespace around it, parses back to itself. */
  lemma ParseExperienceOfDecimal(n: nat, front: string, back: string)
    requires AllSpace(front) && AllSpace(back)
    ensures ParseExperience(front + Decimal(n) + back) == Some(n)
  {
    StripPadded(front, Decimal(n), back);
    DigitsValueOfDecimal(n);
  }

  // ---------------------------------------------------------------------
  // The store and the views that change it
  // ---------------------------------------------------------------------

  class Campus {
    var users: map<UserId, User>
    var profiles: map<UserId, Profile>
    var announcements: seq<Announcement>
    var nextUserId: nat
    var nextAnnouncementId: nat

    /** Keys are fresh below the counters, every profile belongs to a user, usernames and announcement keys are unique. */
    ghost predicate Valid()
      reads this
    {
      && (forall u :: u in users ==> u < nextUserId)
      && profiles.Keys <= users.Keys
      && UniqueUsernames(users)
      && UniqueIds(announcements)
      && (forall i :: 0 <= i < |announcements| ==> announcements[i].id < nextAnnouncementId)
    }

    /** A signed-in requester is a stored user. */
    ghost predicate Known(requester: Option<UserId>)
      reads this
    {
      requester.None? || requester.value in users
    }

    constructor ()
      ensures Valid()
      ensures users == map[] && profiles == map[] && announcements == []
    {
      users, profiles, announcements := map[], map[], [];
      nextUserId, nextAnnouncementId := 0, 0;
    }

    /** `signup_page`. */
    method Signup(requester: Option<UserId>, isPost: bool, form: Params, now: int) returns (outcome: Outcome)
      requires Valid()
      modifies this
      ensures Valid()
      ensures requester.Some? ==> outcome == AlreadySignedIn
      ensures requester.None? && !isPost ==> outcome == FormShown
      ensures requester.None? && isPost && FormSignupProblem(old(users), form).Some? ==>
                outcome == Invalid(FormSignupProblem(old(users), form).value)
      ensures outcome == Done <==> requester.None? && isPost && FormSignupProblem(old(users), form).None?
      ensures outcome != Done ==> unchanged(this)
      ensures outcome == Done ==>
                && old(nextUserId) !in old(users)
                && users == old(users)[old(nextUserId) := SignupUser(form)]
                && profiles == old(profiles)[old(nextUserId) := SignupProfile(form, now)]
                && |users| == |old(users)| + 1 && |profiles| == |old(profiles)| + 1
                && announcements == old(announcements) && nextAnnouncementId == old(nextAnnouncementId)
    {
      if requester.Some? {
        return AlreadySignedIn;
      }
      if !isPost {
        return FormShown;
      }
      var problem := FormSignupProblem(users, form);
      if problem.Some? {
        return Invalid(problem.value);
      }
      var uid := nextUserId;
      var user := SignupUser(form);
      AddUserKeepsUnique(users, uid, user);
      users := users[uid := user];
      profiles := profiles[uid := SignupProfile(form, now)];
      nextUserId := nextUserId + 1;
      outcome := Done;
    }

    /** `post_announcement`. */
    method PostAnnouncement(requester: Option<UserId>, isPost: bool, form: Params, image: Option<Blob>, now: int)
      returns (outcome: Outcome)
      requires Valid() && Known(requester)
      modifies this
      ensures Valid()
      ensures requester.None? ==> outcome == LoginRequired
      ensures requester.Some? && !IsFaculty(profiles, requester.value) ==> outcome == FacultyOnly
      ensures requester.Some? && IsFaculty(old(profiles), requester.value) && !isPost ==> outcome == FormShown
      ensures (requester.Some? && IsFaculty(old(profiles), requester.value) && isPost
               && Strip(Param(form, "title", "")) != "" && Strip(Param(form, "body", "")) != "") ==>
                outcome == Done
      ensures outcome == Invalid(TitleAndBodyRequired) <==>
                requester.Some? && IsFaculty(profiles, requester.value) && isPost
                && (Strip(Param(form, "title", "")) == "" || Strip(Param(form, "body", "")) == "")
      ensures outcome != Done ==> unchanged(this)
      ensures outcome == Done ==>
                && requester.Some? && IsFaculty(profiles, requester.value) && isPost
                && announcements == old(announcements) +
                     [PostedAnnouncement(old(nextAnnouncementId), form, image, requester.value, now)]
                && users == old(users) && profiles == old(profiles)
    {
      if requester.None? {
        return LoginRequired;
      }
      if !IsFaculty(profiles, requester.value) {
        return FacultyOnly;
      }
      if !isPost {
        return FormShown;
      }
      if Strip(Param(form, "title", "")) == "" || Strip(Param(form, "body", "")) == "" {
        return Invalid(TitleAndBodyRequired);
      }
      var a := PostedAnnouncement(nextAnnouncementId, form, image, requester.value, now);
      announcements := announcements + [a];
      nextAnnouncementId := nextAnnouncementId + 1;
      outcome := Done;
    }

    /** `edit_announcement`: any faculty member may edit any announcement. */
    method EditAnnouncement(requester: Option<UserId>, pk: nat, isPost: bool, form: Params, image: Option<Blob>,
                            now: int) returns (outcome: Outcome)
      requires Valid() && Known(requester)
      modifies this
      ensures Valid()
      ensures requester.None? ==> outcome == LoginRequired
      ensures requester.Some? && !IsFaculty(profiles, requester.value) ==> outcome == FacultyOnly
      ensures requester.Some? && IsFaculty(profiles, requester.value) && IndexOf(old(announcements), pk).None? ==>
                outcome == NotFound
      ensures (requester.Some? && IsFaculty(old(profiles), requester.value)
               && IndexOf(old(announcements), pk).Some? && !isPost) ==>
                outcome == FormShown
      ensures (requester.Some? && IsFaculty(old(profiles), requester.value)
               && IndexOf(old(announcements), pk).Some? && isPost) ==>
                var e := EditedAnnouncement(old(announcements)[IndexOf(old(announcements), pk).value], form, image, now);
                && (outcome == Done <==> e.Some?)
                && (outcome == IntegrityError <==> e.None?)
      ensures outcome != Done ==> unchanged(this)
      ensures outcome == Done ==>
                && requester.Some? && IsFaculty(profiles, requester.value) && isPost
                && IndexOf(old(announcements), pk).Some?
                && users == old(users) && profiles == old(profiles)
                && var i := IndexOf(old(announcements), pk).value;
                   var e := EditedAnnouncement(old(announcements)[i], form, image, now);
                   e.Some? && announcements == old(announcements)[i := e.value]
      ensures outcome == IntegrityError ==>
                IndexOf(announcements, pk).Some?
                && EditedAnnouncement(announcements[IndexOf(announcements, pk).value], form, image, now).None?
    {
      if requester.None? {
        return LoginRequired;
      }
      if !IsFaculty(profiles, requester.value) {
        return FacultyOnly;
      }
      var found := IndexOf(announcements, pk);
      if found.None? {
        return NotFound;
      }
      if !isPost {
        return FormShown;
      }
      var i := found.value;
      var edited := EditedAnnouncement(announcements[i], form, image, now);
      if edited.None? {
        return IntegrityError;
      }
      ReplaceKeepsOthers(announcements, i, edited.value);
      announcements := announcements[i := edited.value];
      outcome := Done;
    }

    /** `delete_announcement`: only a POST by faculty deletes; the key is looked up first. */
    method DeleteAnnouncement(requester: Option<UserId>, pk: nat, isPost: bool) returns (outcome: Outcome)
      requires Valid() && Known(requester)
      modifies this
      ensures Valid()
      ensures requester.None? ==> outcome == LoginRequired
      ensures requester.Some? && !isPost ==> outcome == Ignored
      ensures requester.Some? && isPost && IndexOf(old(announcements), pk).None? ==> outcome == NotFound
      ensures requester.Some? && isPost && IndexOf(old(announcements), pk).Some? && !IsFaculty(profiles, requester.value) ==>
                outcome == FacultyOnly
      ensures requester.Some? && isPost && IndexOf(old(announcements), pk).Some? && IsFaculty(old(profiles), requester.value) ==>
                outcome == Done
      ensures outcome != Done ==> unchanged(this)
      ensures outcome == Done ==>
                && requester.Some? && isPost && IsFaculty(profiles, requester.value)
                && IndexOf(old(announcements), pk).Some?
                && announcements == RemoveAt(old(announcements), IndexOf(old(announcements), pk).value)
                && users == old(users) && profiles == old(profiles)
    {
      if requester.None? {
        return LoginRequired;
      }
      if !isPost {
        return Ignored;
      }
      var found := IndexOf(announcements, pk);
      if found.None? {
        return NotFound;
      }
      if !IsFaculty(profiles, requester.value) {
        return FacultyOnly;
      }
      RemoveAtDropsOnlyThatKey(announcements, found.value);
      announcements := RemoveAt(announcements, found.value);
      outcome := Done;
    }

    /** `announcements`: the listing for a signed-in user, and whether to show faculty controls. */
    method Announcements(requester: Option<UserId>, params: Params) returns (outcome: Outcome, listing: Listing, isFaculty: bool)
      ensures requester.None? ==> outcome == LoginRequired
      ensures requester.Some? ==>
                && outcome == FormShown
                && listing == ListAnnouncements(announcements, params)
                && isFaculty == IsFaculty(profiles, requester.value)
    {
      listing := Listing([], [], 0);
      isFaculty := false;
      if requester.None? {
        return LoginRequired, listing, isFaculty;
      }
      listing := ListAnnouncements(announcements, params);
      isFaculty := IsFaculty(profiles, requester.value);
      outcome := FormShown;
    }

    /** `profile_view`: a user without a profile gets a default one, created on the spot. */
    method ProfileView(requester: Option<UserId>, now: int) returns (outcome: Outcome)
      requires Valid() && Known(requester)
      modifies this
      ensures Valid()
      ensures requester.None? ==> outcome == LoginRequired && unchanged(this)
      ensures requester.Some? ==>
                && outcome == FormShown
                && requester.value in profiles
                && profiles == (if requester.value in old(profiles) then old(profiles)
                                else old(profiles)[requester.value := NewProfile(now)])
                && users == old(users) && announcements == old(announcements)
    {
      if requester.None? {
        return LoginRequired;
      }
      if requester.value !in profiles {
        profiles := profiles[requester.value := NewProfile(now)];
      }
      outcome := FormShown;
    }

    /** `edit_profile`: lazy profile creation, then on POST the role-dependent update. */
    method EditProfile(requester: Option<UserId>, isPost: bool, form: Params, avatar: Option<Blob>, now: int)
      returns (outcome: Outcome)
      requires Valid() && Known(requester)
      modifies this
      ensures Valid()
      ensures requester.None? ==> outcome == LoginRequired && unchanged(this)
      ensures requester.Some? ==>
                var uid := requester.value;
                var p := if uid in old(profiles) then old(profiles)[uid] else NewProfile(now);
                && announcements == old(announcements)
                && (isPost ==>
                      && outcome == Done
                      && users == old(users)[uid := EditedUser(old(users)[uid], form)]
                      && profiles == old(profiles)[uid := EditedProfile(p, form, avatar)])
                && (!isPost ==>
                      && outcome == FormShown
                      && users == old(users)
                      && profiles == old(profiles)[uid := p])
    {
      if requester.None? {
        return LoginRequired;
      }
      var uid := requester.value;
      if uid !in profiles {
        profiles := profiles[uid := NewProfile(now)];
      }
      if !isPost {
        return FormShown;
      }
      var u := EditedUser(users[uid], form);
      UpdateUserKeepsUnique(users, uid, u);
      users := users[uid := u];
      profiles := profiles[uid := EditedProfile(profiles[uid], form, avatar)];
      outcome := Done;
    }
  }
}

/** The form schemas of the admin front-end (zod object schemas), as
    functions from a submitted form to the list of validation issues, in the
    order zod reports them: fields in declaration order, and for each field
    its checks in the order they are chained. A form is accepted exactly when
    the list is empty. Every field is a string here, so every issue is a
    continuable one and the object-level password refinement always runs.

    `z.email` and `z.url` are library predicates this model does not look
    into: they are the parameters `isEmail` and `isUrl`. */
module FormValidation {
  import opened Base
  import opened Text

  /** One step of the path to the offending value: a key or an array index. */
  datatype PathKey = Key(name: string) | Index(i: nat)

  /** One validation failure, reported against a path in the form. */
  datatype Issue = Issue(path: seq<PathKey>, message: string)

  /** The outcome of `safeParse`: the parsed (possibly transformed) data, or
      the non-empty list of issues. */
  datatype Parsed<T> = Valid(data: T) | Invalid(issues: seq<Issue>)

  function At(field: string, message: string): Issue
  {
    Issue([Key(field)], message)
  }

  /** A check that reports `message` on `field` unless `ok` holds. */
  function Check(field: string, ok: bool, message: string): (r: seq<Issue>)
    ensures r == [] <==> ok
  {
    if ok then [] else [At(field, message)]
  }

  /** `z.string().min(n, message)`. */
  function MinLength(field: string, s: string, n: nat, message: string): (r: seq<Issue>)
    ensures r == [] <==> |s| >= n
  {
    Check(field, |s| >= n, message)
  }

  /** `z.email({message}).min(1, ...)`: the format check, then the length check. */
  function EmailIssues(s: string, isEmail: string -> bool): (r: seq<Issue>)
    ensures r == [] <==> isEmail(s) && s != ""
    ensures forall i :: 0 <= i < |r| ==> r[i].path == [Key("email")]
  {
    Check("email", isEmail(s), "*Invalid email format") + MinLength("email", s, 1, "*Email is required")
  }

  // ---------------------------------------------------------------------
  // Phone numbers: /^(?:\+234|0)[789][01]\d{8}$/

  /** What follows the prefix of a Nigerian mobile number: a digit 7-9, a
      digit 0 or 1, then exactly eight digits. */
  predicate MobileTail(t: string)
  {
    && |t| == 10
    && t[0] in "789"
    && t[1] in "01"
    && forall i :: 2 <= i < 10 ==> IsDigit(t[i])
  }

  /** The phone regular expression, tried alternative by alternative:
      the international prefix "+234" or the trunk prefix "0". */
  predicate PhoneRegex(s: string)
  {
    || (|s| >= 4 && s[..4] == "+234" && MobileTail(s[4..]))
    || (|s| >= 1 && s[0] == '0' && MobileTail(s[1..]))
  }

  /** The phone field: at least ten characters, then the regular expression.
      An accepted number has 11 or 14 characters, so the length check never
      rejects a number the regular expression accepts. */
  function PhoneIssues(s: string): (r: seq<Issue>)
    ensures r == [] <==> PhoneRegex(s)
    ensures r == [] ==> |s| == 11 || |s| == 14
    ensures PhoneRegex(s) ==> !(At("phone", "*Phone number must be at least 10 digits") in r)
  {
    MinLength("phone", s, 10, "*Phone number must be at least 10 digits")
    + Check("phone", PhoneRegex(s), "*Phone number must contain only digits")
  }

  // ---------------------------------------------------------------------
  // Passwords: /^(?=.*[0-9])(?=.*[!@#$%^&*])[A-Za-z\d!@#$%^&*]{4,}$/

  predicate IsSpecial(c: char)
  {
    c in "!@#$%^&*"
  }

  /** `[A-Za-z\d!@#$%^&*]`. */
  predicate IsPasswordChar(c: char)
  {
    IsLetter(c) || IsDigit(c) || IsSpecial(c)
  }

  /** A lookahead `(?=.*[class])` at the start of `s`: a character of the
      class occurs before the first line terminator, which `.` cannot cross. */
  predicate LookaheadFinds(s: string, inClass: char -> bool)
  {
    exists i :: 0 <= i < |s| && inClass(s[i]) && forall j :: 0 <= j < i ==> !IsLineTerminator(s[j])
  }

  /** The password regular expression as written: two lookaheads, then at
      least four characters of the allowed alphabet up to the end. */
  predicate PasswordRegex(s: string)
  {
    && LookaheadFinds(s, IsDigit)
    && LookaheadFinds(s, IsSpecial)
    && |s| >= 4
    && forall i :: 0 <= i < |s| ==> IsPasswordChar(s[i])
  }

  /** The password rule as its error message states it: at least six
      characters from the allowed alphabet, with a digit and a special character. */
  predicate StrongPassword(s: string)
  {
    && |s| >= 6
    && (forall i :: 0 <= i < |s| ==> IsPasswordChar(s[i]))
    && (exists i :: 0 <= i < |s| && IsDigit(s[i]))
    && (exists i :: 0 <= i < |s| && IsSpecial(s[i]))
  }

  /** Within the allowed alphabet there is no line terminator, so a
      lookahead finds a class exactly when the class occurs at all. */
  lemma LookaheadInAlphabet(s: string, inClass: char -> bool)
    ensures (forall i :: 0 <= i < |s| ==> IsPasswordChar(s[i])) ==>
      (LookaheadFinds(s, inClass) <==> exists i :: 0 <= i < |s| && inClass(s[i]))
  {
    if (forall i :: 0 <= i < |s| ==> IsPasswordChar(s[i])) && exists i :: 0 <= i < |s| && inClass(s[i]) {
      var i :| 0 <= i < |s| && inClass(s[i]);
      forall j | 0 <= j < i ensures !IsLineTerminator(s[j]) {
        assert IsPasswordChar(s[j]);
      }
    }
  }

  /** A password field (`password` or `newPassword`): at least six
      characters, then the regular expression. */
  function PasswordIssues(field: string, s: string, regexMessage: string): (r: seq<Issue>)
    ensures r == [] <==> StrongPassword(s)
    ensures forall i :: 0 <= i < |r| ==> r[i].path == [Key(field)]
  {
    LookaheadInAlphabet(s, IsDigit);
    LookaheadInAlphabet(s, IsSpecial);
    MinLength(field, s, 6, "*Password must be at least 6 characters")
    + Check(field, PasswordRegex(s), regexMessage)
  }

  /** The object-level refinement: the confirmation must equal the password. */
  const Mismatch := At("passwordConfirm", "*Passwords do not match")

  function ConfirmIssues(password: string, confirm: string): (r: seq<Issue>)
    ensures r == [] <==> password == confirm
    ensures Mismatch in r <==> password != confirm
  {
    if password == confirm then [] else [Mismatch]
  }

  const PasswordRuleMessage := "*Must be at least 6 characters, include a number and a special character"

  // ---------------------------------------------------------------------
  // Account forms

  datatype WebmasterForm = WebmasterForm(
    firstname: string, lastname: string, username: string, email: string,
    phone: string, password: string, passwordConfirm: string)

  /** `webmasterSchema`. */
  function WebmasterIssues(f: WebmasterForm, isEmail: string -> bool): (r: seq<Issue>)
    ensures r == [] <==>
      && f.firstname != "" && f.lastname != "" && f.username != ""
      && isEmail(f.email) && f.email != ""
      && PhoneRegex(f.phone) && StrongPassword(f.password)
      && f.passwordConfirm != "" && f.password == f.passwordConfirm
    ensures Mismatch in r <==> f.password != f.passwordConfirm
  {
    var fields :=
      MinLength("firstname", f.firstname, 1, "*First name is required")
      + MinLength("lastname", f.lastname, 1, "*Last name is required")
      + MinLength("username", f.username, 1, "*Username is required")
      + EmailIssues(f.email, isEmail)
      + PhoneIssues(f.phone)
      + PasswordIssues("password", f.password, PasswordRuleMessage + ".")
      + MinLength("passwordConfirm", f.passwordConfirm, 1, "*Please confirm your password");
    assert Mismatch !in fields;
    fields + ConfirmIssues(f.password, f.passwordConfirm)
  }

  datatype RegisterAdminForm = RegisterAdminForm(
    firstname: string, lastname: string, email: string,
    phone: string, password: string, passwordConfirm: string)

  /** `registerAdminSchema`. Unknown keys pass through (`.loose()`) and are not modelled. */
  function RegisterAdminIssues(f: RegisterAdminForm, isEmail: string -> bool): (r: seq<Issue>)
    ensures r == [] <==>
      && f.firstname != "" && f.lastname != ""
      && isEmail(f.email) && f.email != ""
      && PhoneRegex(f.phone) && StrongPassword(f.password)
      && f.passwordConfirm != "" && f.password == f.passwordConfirm
    ensures Mismatch in r <==> f.password != f.passwordConfirm
  {
    var fields :=
      MinLength("firstname", f.firstname, 1, "*First name is required")
      + MinLength("lastname", f.lastname, 1, "*Last name is required")
      + EmailIssues(f.email, isEmail)
      + PhoneIssues(f.phone)
      + PasswordIssues("password", f.password, PasswordRuleMessage)
      + MinLength("passwordConfirm", f.passwordConfirm, 1, "*Please confirm your password");
    assert Mismatch !in fields;
    fields + ConfirmIssues(f.password, f.passwordConfirm)
  }

  datatype EditAdminForm = EditAdminForm(firstname: string, lastname: string, email: string, phone: string)

  /** `editAdminSchema`: the account details without any password. */
  function EditAdminIssues(f: EditAdminForm, isEmail: string -> bool): (r: seq<Issue>)
    ensures r == [] <==>
      f.firstname != "" && f.lastname != "" && isEmail(f.email) && f.email != "" && PhoneRegex(f.phone)
  {
    MinLength("firstname", f.firstname, 1, "*First name is required")
    + MinLength("lastname", f.lastname, 1, "*Last name is required")
    + EmailIssues(f.email, isEmail)
    + PhoneIssues(f.phone)
  }

  datatype LoginForm = LoginForm(email: string, password: string)

  /** `loginSchema`: any non-empty password; no complexity rule. */
  function LoginIssues(f: LoginForm, isEmail: string -> bool): (r: seq<Issue>)
    ensures r == [] <==> isEmail(f.email) && f.email != "" && f.password != ""
  {
    EmailIssues(f.email, isEmail) + MinLength("password", f.password, 1, "*Password cannot be empty")
  }

  datatype ChangePasswordForm = ChangePasswordForm(currentPassword: string, newPassword: string, passwordConfirm: string)

  /** `changePasswordSchema`: the complexity rule applies to the new password,
      and the confirmation must equal it. */
  function ChangePasswordIssues(f: ChangePasswordForm): (r: seq<Issue>)
    ensures r == [] <==>
      f.currentPassword != "" && StrongPassword(f.newPassword)
      && f.passwordConfirm != "" && f.newPassword == f.passwordConfirm
    ensures Mismatch in r <==> f.newPassword != f.passwordConfirm
  {
    var fields :=
      MinLength("currentPassword", f.currentPassword, 1, "*Password cannot be empty")
      + PasswordIssues("newPassword", f.newPassword, PasswordRuleMessage)
      + MinLength("passwordConfirm", f.passwordConfirm, 1, "*Please confirm your password");
    assert Mismatch !in fields;
    fields + ConfirmIssues(f.newPassword, f.passwordConfirm)
  }

  /** The login form accepts a password the registration forms refuse. */
  lemma LoginHasNoComplexityRule(isEmail: string -> bool)
    requires isEmail("a@b.co")
    ensures LoginIssues(LoginForm("a@b.co", "a"), isEmail) == []
    ensures PasswordIssues("password", "a", PasswordRuleMessage) != []
  {
    assert !StrongPassword("a");
  }

  // ---------------------------------------------------------------------
  // Navigation links: childLinkSchema and pageSchema

  /** `[a-zA-Z0-9\-\/#]`. */
  predicate IsPathChar(c: char)
  {
    IsAlnum(c) || c == '-' || c == '/' || c == '#'
  }

  /** `/^\/[a-zA-Z0-9\-\/#]*$/`. */
  predicate PathRegex(s: string)
  {
    |s| >= 1 && s[0] == '/' && forall i :: 1 <= i < |s| ==> IsPathChar(s[i])
  }

  /** `/^fa:[A-Za-z0-9]+$/`. */
  predicate IconRegex(s: string)
  {
    |s| >= 4 && s[..3] == "fa:" && forall i :: 3 <= i < |s| ==> IsAlnum(s[i])
  }

  const DefaultIcon := "fa:FaRegFile"

  /** The default icon passes the icon rule. */
  lemma DefaultIconValid()
    ensures IconRegex(DefaultIcon)
  {
    assert DefaultIcon[..3] == "fa:";
  }

  /** The icon transform `val?.trim() || "fa:FaRegFile"`: a missing icon or
      one that trims to nothing becomes the default icon. */
  function NormalizeIcon(icon: Option<string>): (r: string)
    ensures icon.None? || IsBlank(icon.value) ==> r == DefaultIcon
    ensures icon.Some? && !IsBlank(icon.value) ==> r != "" && !IsWhitespace(r[0]) && !IsWhitespace(r[|r| - 1])
  {
    if icon.None? then DefaultIcon
    else
      var t := Trim(icon.value);
      if t == "" then DefaultIcon else t
  }

  /** Submitting a normalised icon again leaves it as it is. */
  lemma NormalizeIconIdempotent(icon: Option<string>)
    ensures NormalizeIcon(Some(NormalizeIcon(icon))) == NormalizeIcon(icon)
  {
    var r := NormalizeIcon(icon);
    TrimUntrimmed(r);
  }

  /** A string that neither starts nor ends with white space is its own trim. */
  lemma TrimUntrimmed(s: string)
    requires s != "" && !IsWhitespace(s[0]) && !IsWhitespace(s[|s| - 1])
    ensures Trim(s) == s
  {
    assert TrimStart(s) == s;
  }

  datatype ChildLinkForm = ChildLinkForm(pageName: string, path: string, icon: Option<string>)

  /** What `childLinkSchema` hands on: the icon after its transform. */
  datatype ChildLinkData = ChildLinkData(pageName: string, path: string, icon: string)

  function ChildLinkIssues(f: ChildLinkForm): (r: seq<Issue>)
    ensures r == [] <==> f.pageName != "" && PathRegex(f.path) && IconRegex(NormalizeIcon(f.icon))
  {
    MinLength("pageName", f.pageName, 1, "Page name is required")
    + MinLength("path", f.path, 1, "Path is required")
    + Check("path", PathRegex(f.path), "Path must start with '/'")
    + Check("icon", IconRegex(NormalizeIcon(f.icon)), "Icon must follow format 'fa:FaIconName'")
  }

  /** `childLinkSchema.safeParse`. The default icon itself passes, and every
      icon that comes out is "fa:" followed by letters and digits. */
  function ParseChildLink(f: ChildLinkForm): (r: Parsed<ChildLinkData>)
    ensures r.Valid? <==> f.pageName != "" && PathRegex(f.path) && IconRegex(NormalizeIcon(f.icon))
    ensures r.Valid? ==> r.data.pageName == f.pageName && r.data.path == f.path && r.data.icon == NormalizeIcon(f.icon)
    ensures r.Valid? ==> IconRegex(r.data.icon)
    ensures (f.icon.None? && f.pageName != "" && PathRegex(f.path)) ==> r.Valid? && r.data.icon == DefaultIcon
    ensures r.Invalid? ==> r.issues != []
  {
    var issues := ChildLinkIssues(f);
    DefaultIconValid();
    if issues == [] then Valid(ChildLinkData(f.pageName, f.path, NormalizeIcon(f.icon))) else Invalid(issues)
  }

  /** The root path alone is a valid path. */
  lemma RootPathValid()
    ensures PathRegex("/")
  {
  }

  /** `[a-z0-9-]`. */
  predicate IsPageIdChar(c: char)
  {
    IsLower(c) || IsDigit(c) || c == '-'
  }

  /** `/^[a-z0-9-]+$/`. */
  predicate PageIdRegex(s: string)
  {
    |s| >= 1 && forall i :: 0 <= i < |s| ==> IsPageIdChar(s[i])
  }

  datatype PageForm = PageForm(pageName: string, path: string, icon: Option<string>, pageId: string, pageType: string)

  datatype PageData = PageData(pageName: string, path: string, icon: string, pageId: string, pageType: string)

  /** The child-link part of a page form. */
  function ChildPart(f: PageForm): ChildLinkForm
  {
    ChildLinkForm(f.pageName, f.path, f.icon)
  }

  /** `pageSchema = childLinkSchema.extend({pageId, pageType, ...})`. */
  function ParsePage(f: PageForm): (r: Parsed<PageData>)
    ensures r.Valid? <==> ParseChildLink(ChildPart(f)).Valid? && PageIdRegex(f.pageId) && f.pageType != ""
    ensures r.Valid? ==> r.data == PageData(f.pageName, f.path, NormalizeIcon(f.icon), f.pageId, f.pageType)
    ensures r.Invalid? ==> r.issues != []
  {
    var issues :=
      ChildLinkIssues(ChildPart(f))
      + MinLength("pageId", f.pageId, 1, "Page ID is required")
      + Check("pageId", PageIdRegex(f.pageId), "Page ID must be lowercase letters, numbers, or hyphens")
      + MinLength("pageType", f.pageType, 1, "Page type is required");
    if issues == [] then Valid(PageData(f.pageName, f.path, NormalizeIcon(f.icon), f.pageId, f.pageType))
    else Invalid(issues)
  }

  /** A page form that passes `pageSchema` also passes every rule of
      `childLinkSchema`, with the same transformed icon. */
  lemma PageEnforcesChildLinkRules(f: PageForm)
    requires ParsePage(f).Valid?
    ensures ParseChildLink(ChildPart(f)).Valid?
    ensures ParseChildLink(ChildPart(f)).data.icon == ParsePage(f).data.icon
  {
  }

  // ---------------------------------------------------------------------
  // News, projects, publications

  datatype MediaForm = MediaForm(kind: string, url: string, thumbnail: Option<string>)

  datatype NewsForm = NewsForm(
    title: string, date: string, thumbnail: string, brief: string,
    content: string, media: Option<seq<MediaForm>>)

  /** One media entry: its type is "image" or "video", its url is non-empty. */
  predicate MediaOk(m: MediaForm)
  {
    (m.kind == "image" || m.kind == "video") && m.url != ""
  }

  /** The issues of the media entries from index `from` on; an issue's path
      is `media`, the entry's index, and the field. */
  function MediaIssues(ms: seq<MediaForm>, from: nat): (r: seq<Issue>)
    ensures r == [] <==> forall i :: 0 <= i < |ms| ==> MediaOk(ms[i])
    ensures forall i :: 0 <= i < |r| ==> |r[i].path| == 3 && r[i].path[0] == Key("media")
    decreases |ms|
  {
    if |ms| == 0 then []
    else
      var m := ms[0];
      var here :=
        (if m.kind == "image" || m.kind == "video" then [] else [Issue([Key("media"), Index(from), Key("type")], "Invalid option: expected one of \"image\"|\"video\"")])
        + (if m.url != "" then [] else [Issue([Key("media"), Index(from), Key("url")], "Media URL is required")]);
      var rest := MediaIssues(ms[1..], from + 1);
      assert forall i :: 1 <= i < |ms| ==> ms[i] == ms[1..][i - 1];
      here + rest
  }

  /** `newsSchema`. */
  function NewsIssues(f: NewsForm, isUrl: string -> bool): (r: seq<Issue>)
    ensures r == [] <==>
      && |f.title| >= 3 && f.date != "" && isUrl(f.thumbnail)
      && |f.brief| >= 10 && |f.content| >= 20
      && (f.media.Some? ==> forall i :: 0 <= i < |f.media.value| ==> MediaOk(f.media.value[i]))
  {
    MinLength("title", f.title, 3, "Title is required")
    + MinLength("date", f.date, 1, "Date is required")
    + Check("thumbnail", isUrl(f.thumbnail), "Thumbnail must be a valid URL")
    + MinLength("brief", f.brief, 10, "Brief description is required")
    + MinLength("content", f.content, 20, "Content must be at least 20 characters")
    + (if f.media.Some? then MediaIssues(f.media.value, 0) else [])
  }

  datatype ProjectForm = ProjectForm(title: string, objective: string)

  /** `projectsSchema`: a title and an objective of at least five characters. */
  function ProjectIssues(f: ProjectForm): (r: seq<Issue>)
    ensures r == [] <==> f.title != "" && |f.objective| >= 5
  {
    MinLength("title", f.title, 1, "*Project Title cannot be empty")
    + MinLength("objective", f.objective, 5, "*Please provide at least one clear project objective")
  }

  // Authors: /^([A-Za-z\s]+,\s)*[A-Za-z\s]+$/

  /** `[A-Za-z\s]`. */
  predicate IsNameChar(c: char)
  {
    IsLetter(c) || IsWhitespace(c)
  }

  predicate AllNameChars(s: string)
  {
    forall i :: 0 <= i < |s| ==> IsNameChar(s[i])
  }

  /** The authors regular expression read as a grammar: a final non-empty run
      of name characters, preceded by any number of groups made of a
      non-empty run, a comma and one white-space character. */
  predicate AuthorsRegex(s: string)
    decreases |s|, 1
  {
    || (|s| > 0 && AllNameChars(s))
    || exists k :: 0 < k < |s| && GroupAt(s, k)
  }

  /** `s` starts with a run of name characters ending at `k`, a comma and a
      white-space character, and the grammar accepts the rest. */
  predicate GroupAt(s: string, k: int)
    decreases |s|, 0
  {
    0 < k && k + 2 <= |s| && s[k] == ',' && IsWhitespace(s[k + 1]) && AllNameChars(s[..k]) && AuthorsRegex(s[k + 2..])
  }

  /** The authors rule as a condition on each comma: the string is non-empty,
      made of name characters and commas, and every comma has a name
      character (not a comma) before it, then a white-space character, then
      a name character. */
  predicate AuthorsWellSeparated(s: string)
  {
    && |s| > 0
    && (forall i :: 0 <= i < |s| ==> IsNameChar(s[i]) || s[i] == ',')
    && forall i :: 0 <= i < |s| && s[i] == ',' ==>
        0 < i && i + 2 < |s| && s[i - 1] != ',' && IsWhitespace(s[i + 1]) && s[i + 2] != ','
  }

  /** Every string the grammar accepts meets the comma condition. */
  lemma {:induction false} AuthorsRegexWellSeparated(s: string)
    requires AuthorsRegex(s)
    ensures AuthorsWellSeparated(s)
    decreases |s|
  {
    if !(|s| > 0 && AllNameChars(s)) {
      var k := FirstGroup(s);
      AuthorsRegexWellSeparated(s[k + 2..]);
      SeparatedPrepend(s[..k], s[k + 1], s[k + 2..]);
    }
  }

  /** A string the grammar accepts that is not a single run starts with a
      "run, comma, white space" group ending at `k + 2`. */
  lemma FirstGroup(s: string) returns (k: nat)
    requires AuthorsRegex(s) && !(|s| > 0 && AllNameChars(s))
    ensures 0 < k && k + 2 <= |s| && s[k] == ',' && IsWhitespace(s[k + 1])
    ensures AllNameChars(s[..k]) && AuthorsRegex(s[k + 2..])
    ensures s == s[..k] + [',', s[k + 1]] + s[k + 2..]
  {
    k :| 0 < k < |s| && GroupAt(s, k);
    assert s == s[..k] + [',', s[k + 1]] + s[k + 2..];
  }

  /** One more "run, comma, white space" group in front keeps the comma condition. */
  lemma SeparatedPrepend(a: string, w: char, rest: string)
    requires |a| > 0 && AllNameChars(a) && IsWhitespace(w) && AuthorsWellSeparated(rest)
    ensures AuthorsWellSeparated(a + [',', w] + rest)
  {
    var s := a + [',', w] + rest;
    var k := |a|;
    forall i | 0 <= i < |s| && s[i] == ','
      ensures 0 < i && i + 2 < |s| && s[i - 1] != ',' && IsWhitespace(s[i + 1]) && s[i + 2] != ','
    {
      if i < k {
        assert false;
      } else if i == k {
        assert s[k - 1] == a[k - 1];
        assert s[k + 2] == rest[0];
      } else if i == k + 1 {
        assert false;
      } else {
        var j := i - k - 2;
        assert s[i] == rest[j];
        if j > 0 { assert s[i - 1] == rest[j - 1]; }
        assert s[i + 1] == rest[j + 1];
        assert s[i + 2] == rest[j + 2];
      }
    }
    forall i | 0 <= i < |s| ensures IsNameChar(s[i]) || s[i] == ',' {
      if i < k { assert s[i] == a[i]; }
      else if i > k + 1 { assert s[i] == rest[i - k - 2]; }
    }
  }

  /** Every string meeting the comma condition is accepted by the grammar,
      splitting at its first comma. */
  lemma {:induction false} AuthorsWellSeparatedRegex(s: string)
    requires AuthorsWellSeparated(s)
    ensures AuthorsRegex(s)
    decreases |s|
  {
    var k := IndexOf(s, ',');
    if k == |s| {
      forall i | 0 <= i < |s| ensures IsNameChar(s[i]) {
        assert s[i] in s[..k];
      }
    } else {
      var rest := s[k + 2..];
      assert AllNameChars(s[..k]) by {
        forall i | 0 <= i < k ensures IsNameChar(s[..k][i]) {
          assert s[..k][i] == s[i];
          assert s[i] in s[..k];
        }
      }
      assert AuthorsWellSeparated(rest) by {
        forall j | 0 <= j < |rest| ensures IsNameChar(rest[j]) || rest[j] == ',' {
          assert rest[j] == s[k + 2 + j];
        }
        forall j | 0 <= j < |rest| && rest[j] == ','
          ensures 0 < j && j + 2 < |rest| && rest[j - 1] != ',' && IsWhitespace(rest[j + 1]) && rest[j + 2] != ','
        {
          assert rest[j] == s[k + 2 + j];
          if j > 0 { assert rest[j - 1] == s[k + 1 + j]; }
        }
      }
      AuthorsWellSeparatedRegex(rest);
      assert GroupAt(s, k);
    }
  }

  /** The grammar and the comma condition accept the same strings. */
  lemma AuthorsRegexIffWellSeparated(s: string)
    ensures AuthorsRegex(s) <==> AuthorsWellSeparated(s)
  {
    if AuthorsRegex(s) { AuthorsRegexWellSeparated(s); }
    if AuthorsWellSeparated(s) { AuthorsWellSeparatedRegex(s); }
  }

  /** A comma must be followed by white space. */
  lemma AuthorsNeedSpaceAfterComma()
    ensures !AuthorsRegex("a,b")
    ensures AuthorsRegex("a, b")
  {
    AuthorsRegexIffWellSeparated("a,b");
    assert "a,b"[1] == ',' && !IsWhitespace("a,b"[2]);
    AuthorsRegexIffWellSeparated("a, b");
    assert "a, b"[2..] == " b";
  }

  // Dates: /^\d{4}-\d{2}-\d{2}$/

  predicate AllDigits(s: string)
  {
    forall i :: 0 <= i < |s| ==> IsDigit(s[i])
  }

  /** The date regular expression, position by position. */
  predicate DateRegex(s: string)
  {
    && |s| == 10
    && s[4] == '-' && s[7] == '-'
    && forall i :: 0 <= i < 10 && i != 4 && i != 7 ==> IsDigit(s[i])
  }

  /** A date is accepted exactly when splitting it at '-' gives three digit
      groups of lengths 4, 2 and 2; there is no month or day range check. */
  lemma DateRegexIffGroups(s: string)
    ensures DateRegex(s) <==>
      var g := Split(s, '-');
      |g| == 3 && |g[0]| == 4 && |g[1]| == 2 && |g[2]| == 2 && AllDigits(g[0]) && AllDigits(g[1]) && AllDigits(g[2])
  {
    var g := Split(s, '-');
    if DateRegex(s) {
      var parts := [s[..4], s[5..7], s[8..]];
      forall i | 0 <= i < 3 ensures '-' !in parts[i] {
        if i == 0 { assert forall j :: 0 <= j < 4 ==> parts[0][j] == s[j]; }
        if i == 1 { assert forall j :: 0 <= j < 2 ==> parts[1][j] == s[5 + j]; }
        if i == 2 { assert forall j :: 0 <= j < 2 ==> parts[2][j] == s[8 + j]; }
      }
      assert parts[1..][1..] == [s[8..]];
      assert Join(parts[1..], "-") == s[5..7] + "-" + s[8..];
      assert s == s[..4] + "-" + s[5..7] + "-" + s[8..];
      assert Join(parts, "-") == s;
      SplitJoin(parts, '-');
    }
    if |g| == 3 && |g[0]| == 4 && |g[1]| == 2 && |g[2]| == 2 && AllDigits(g[0]) && AllDigits(g[1]) && AllDigits(g[2]) {
      JoinSplit(s, '-');
      assert s == g[0] + "-" + g[1] + "-" + g[2] by {
        assert Join(g, "-") == g[0] + "-" + Join(g[1..], "-");
        assert Join(g[1..], "-") == g[1] + "-" + g[2];
      }
    }
  }

  /** Month 13 and day 45 pass. */
  lemma DateHasNoRangeCheck()
    ensures DateRegex("2024-13-45")
  {
  }

  datatype PublicationForm = PublicationForm(title: string, summary: string, authors: string, link: string, date: string)

  /** `publicationSchema`. */
  function PublicationIssues(f: PublicationForm, isUrl: string -> bool): (r: seq<Issue>)
    ensures r == [] <==>
      f.title != "" && f.summary != "" && AuthorsWellSeparated(f.authors) && isUrl(f.link) && DateRegex(f.date)
  {
    AuthorsRegexIffWellSeparated(f.authors);
    MinLength("title", f.title, 1, "Title is required")
    + MinLength("summary", f.summary, 1, "Summary is required")
    + Check("authors", AuthorsRegex(f.authors), "Authors must be comma-separated with a space after each comma")
    + Check("link", isUrl(f.link), "Invalid URL")
    + Check("date", DateRegex(f.date), "Date must be included")
  }

  /** Names of letters and white space joined with ", " (as the publication
      editor fills the authors field) satisfy the authors rule. */
  lemma {:induction false} JoinedAuthorsAccepted(names: seq<string>)
    requires |names| >= 1
    requires forall i :: 0 <= i < |names| ==> names[i] != "" && AllNameChars(names[i])
    ensures AuthorsRegex(Join(names, ", "))
    decreases |names|
  {
    if |names| > 1 {
      var s := Join(names, ", ");
      var k := |names[0]|;
      JoinedAuthorsAccepted(names[1..]);
      assert s == names[0] + ", " + Join(names[1..], ", ");
      assert s[..k] == names[0];
      assert s[k + 2..] == Join(names[1..], ", ");
      assert s[k] == ',' && s[k + 1] == ' ';
      assert GroupAt(s, k);
    }
  }
}

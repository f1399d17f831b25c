/** The older schema file of the front-end. Its webmaster, register-admin,
    login and change-password schemas are character-for-character the same
    as the current ones, so they are the same functions here; the contracts
    restate what the older file promises. Its one schema of its own,
    `upcomingProjectsSchema`, has the same rules as `projectsSchema`. */
module LegacyValidators {
  import opened FormValidation

  /** The older `webmasterSchema`: non-empty first name, last name and
      username; a valid e-mail; the phone and password rules; a non-empty
      confirmation equal to the password. */
  function LegacyWebmasterIssues(f: WebmasterForm, isEmail: string -> bool): (r: seq<Issue>)
    ensures r == [] <==>
      && f.firstname != "" && f.lastname != "" && f.username != ""
      && isEmail(f.email) && f.email != ""
      && PhoneRegex(f.phone) && StrongPassword(f.password)
      && f.passwordConfirm != "" && f.password == f.passwordConfirm
    ensures Mismatch in r <==> f.password != f.passwordConfirm
  {
    WebmasterIssues(f, isEmail)
  }

  /** The older `registerAdminSchema`: the webmaster rules without a username. */
  function LegacyRegisterAdminIssues(f: RegisterAdminForm, isEmail: string -> bool): (r: seq<Issue>)
    ensures r == [] <==>
      && f.firstname != "" && f.lastname != ""
      && isEmail(f.email) && f.email != ""
      && PhoneRegex(f.phone) && StrongPassword(f.password)
      && f.passwordConfirm != "" && f.password == f.passwordConfirm
    ensures Mismatch in r <==> f.password != f.passwordConfirm
  {
    RegisterAdminIssues(f, isEmail)
  }

  /** The older `loginSchema`: any non-empty password is accepted. */
  function LegacyLoginIssues(f: LoginForm, isEmail: string -> bool): (r: seq<Issue>)
    ensures r == [] <==> isEmail(f.email) && f.email != "" && f.password != ""
  {
    LoginIssues(f, isEmail)
  }

  /** The older `changePasswordSchema`: a non-empty current password, the
      rule on the new password, and a non-empty confirmation equal to it,
      a different one reported on `passwordConfirm`. */
  function LegacyChangePasswordIssues(f: ChangePasswordForm): (r: seq<Issue>)
    ensures r == [] <==>
      && f.currentPassword != "" && StrongPassword(f.newPassword)
      && f.passwordConfirm != "" && f.newPassword == f.passwordConfirm
    ensures Mismatch in r <==> f.newPassword != f.passwordConfirm
  {
    ChangePasswordIssues(f)
  }

  /** A webmaster form passes exactly when it has a username and the same
      form without the username passes the registration rules. */
  lemma WebmasterIsRegisterWithUsername(f: WebmasterForm, isEmail: string -> bool)
    ensures LegacyWebmasterIssues(f, isEmail) == [] <==>
      f.username != ""
      && LegacyRegisterAdminIssues(RegisterAdminForm(f.firstname, f.lastname, f.email, f.phone, f.password, f.passwordConfirm), isEmail) == []
  {
  }

  /** The change-password rule on a new password and its confirmation is the
      registration rule on a password and its confirmation: with the other
      registration fields valid, one passes exactly when the other does. */
  lemma NewPasswordFollowsRegisterRule(cur: string, f: RegisterAdminForm, isEmail: string -> bool)
    requires cur != "" && f.firstname != "" && f.lastname != ""
    requires isEmail(f.email) && f.email != "" && PhoneRegex(f.phone)
    ensures LegacyChangePasswordIssues(ChangePasswordForm(cur, f.password, f.passwordConfirm)) == []
      <==> LegacyRegisterAdminIssues(f, isEmail) == []
  {
  }

  /** A password that a registration accepts also logs in, for a valid e-mail;
      the converse fails for short or simple passwords. */
  lemma RegisteredPasswordLogsIn(f: RegisterAdminForm, isEmail: string -> bool)
    requires LegacyRegisterAdminIssues(f, isEmail) == []
    ensures LegacyLoginIssues(LoginForm(f.email, f.password), isEmail) == []
  {
  }

  /** `upcomingProjectsSchema`: a non-empty title and an objective of at
      least five characters; other keys pass through. */
  function UpcomingProjectIssues(f: ProjectForm): (r: seq<Issue>)
    ensures r == [] <==> f.title != "" && |f.objective| >= 5
    ensures f.title == "" ==> At("title", "*Project Title cannot be empty") in r
  {
    ProjectIssues(f)
  }
}

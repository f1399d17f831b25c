# CSTD admin front-end, modelled in Dafny

This project models the logic of the CSTD content-management front-end, a
React application. The webmaster and staff use it to edit the site's
navigation, footer, pages, events, publications and feedback inbox, and
the webmaster uses it to manage administrator accounts. Rendering, the
server and the browser are not modelled. What remains is what each handler
computes from its state and inputs, and which request it sends. Requests
are plain values, and facts about the outside world are parameters:

- the current time;
- what a `Date` parses a string to;
- the result of a server call;
- the icons a library exports.

The modules follow the source:

| file | module | source |
|---|---|---|
| `base.dfy` | `Base` | `Option`, `Array.filter`, the stable `Array.sort` with a possibly-NaN key, `splice`, toggles, distinctness |
| `text.dfy` | `Text` | JavaScript strings: `\s`, `toLowerCase`, `trim`, `includes`, `split`/`join`, `parseInt`, number-to-string |
| `form_validation.dfy` | `FormValidation` | the zod schemas of `src/validators/formValidation.js` |
| `legacy_validators.dfy` | `LegacyValidators` | the older schemas of `validators/formValidators.js` |
| `footer.dfy` | `FooterEditor` | the footer editor |
| `navigation.dfy` | `NavigationEditor` | the navigation editor: dropdowns, drag and drop, save order, add/edit/delete |
| `page_sections.dfy` | `PageSections` | the page-content editor |
| `events.dfy` | `Events` | the events list: flyer checks, status, time display, filter and sort |
| `feedback.dfy` | `FeedbackInbox` | the feedback inbox: selection, header checkbox, deletion |
| `admin_dashboard.dfy` | `AdminDashboard` | the webmaster dashboard: counts, filter and sort, actions, dialog |
| `sidenav.dfy` | `SideMenu` | the side menu: menus per role, link split, icons, sections, colours |
| `publications.dfy` | `Publications` | the publications page: search, edit, submit |

## Model

| member | source | states |
|---|---|---|
| FormValidation.Check | src/validators/formValidation.js:12-14 | a rule adds its issue exactly when its condition fails |
| FormValidation.MinLength | src/validators/formValidation.js:5-7 | `min(n)` reports an issue exactly when the string is shorter than n |
| FormValidation.EmailIssues | src/validators/formValidation.js:8-9 | the email passes exactly when it has the e-mail format and is non-empty; every issue is reported on `email` |
| FormValidation.PhoneIssues | src/validators/formValidation.js:10-14 | the phone passes exactly when it matches the Nigerian mobile pattern; an accepted number has 11 or 14 characters; a matching number never gets the length message |
| FormValidation.LookaheadInAlphabet | src/validators/formValidation.js:17 | within the allowed password alphabet, a `(?=.*[class])` lookahead succeeds exactly when some character is in the class |
| FormValidation.PasswordIssues | src/validators/formValidation.js:15-19 | a password passes exactly when it has at least six allowed characters, one a digit and one a special character |
| FormValidation.ConfirmIssues | src/validators/formValidation.js:22-25 | the mismatch issue on `passwordConfirm` appears exactly when the two passwords differ |
| FormValidation.WebmasterIssues | src/validators/formValidation.js:3-25 | the webmaster form passes exactly when every field rule and the match hold; the mismatch is reported even when other fields fail |
| FormValidation.RegisterAdminIssues | src/validators/formValidation.js:26-47 | the registration form passes exactly when every field rule and the match hold |
| FormValidation.EditAdminIssues | src/validators/formValidation.js:49-60 | the edit-account form passes exactly when names, email and phone pass; no password is involved |
| FormValidation.LoginIssues | src/validators/formValidation.js:62-67 | login passes exactly when the email is valid and the password is non-empty |
| FormValidation.ChangePasswordIssues | src/validators/formValidation.js:69-82 | the change-password form passes exactly when the current password is given, the new one is strong and the confirmation matches it |
| FormValidation.LoginHasNoComplexityRule | src/validators/formValidation.js:62-67 | a one-letter password passes login but fails the password rule of registration |
| FormValidation.NormalizeIcon | src/validators/formValidation.js:89 | a missing or blank icon becomes "fa:FaRegFile"; any other icon comes out trimmed |
| FormValidation.NormalizeIconIdempotent | src/validators/formValidation.js:89 | normalising an already normalised icon leaves it unchanged |
| FormValidation.ParseChildLink | src/validators/formValidation.js:85-91 | a child link parses exactly when its name is non-empty, its path matches and its normalised icon matches; the parsed icon is always "fa:" plus letters and digits; a missing icon parses to the default |
| FormValidation.RootPathValid | src/validators/formValidation.js:88 | "/" is a valid path |
| FormValidation.ParsePage | src/validators/formValidation.js:94-101 | a page parses exactly when its child-link part parses, its page id is lower-case letters, digits and hyphens, and its type is non-empty |
| FormValidation.PageEnforcesChildLinkRules | src/validators/formValidation.js:94 | a page that passes also passes every child-link rule, with the same icon |
| FormValidation.MediaIssues | src/validators/formValidation.js:110-118 | the media list passes exactly when every entry is an image or video with a URL; issues carry the path media, index, field, and a wrong kind gets zod's enum message |
| FormValidation.NewsIssues | src/validators/formValidation.js:104-119 | a news item passes exactly when title, date, thumbnail URL, brief, content and media all pass |
| FormValidation.ProjectIssues | src/validators/formValidation.js:122-129 | a project passes exactly when its title is non-empty and its objective has at least five characters |
| FormValidation.AuthorsRegexIffWellSeparated | src/validators/formValidation.js:135-137 | the authors pattern accepts exactly the non-empty strings of letters and white space in which every comma follows a name and is followed by one white-space character |
| FormValidation.AuthorsNeedSpaceAfterComma | src/validators/formValidation.js:135-137 | "a,b" is refused and "a, b" accepted |
| FormValidation.DateRegexIffGroups | src/validators/formValidation.js:139-141 | a date passes exactly when splitting at '-' gives groups of 4, 2 and 2 digits |
| FormValidation.DateHasNoRangeCheck | src/validators/formValidation.js:139-141 | month 13 and day 45 pass |
| FormValidation.PublicationIssues | src/validators/formValidation.js:132-142 | a publication passes exactly when title and summary are non-empty, authors are well separated, the link is a URL and the date has the digit shape |
| FormValidation.JoinedAuthorsAccepted | src/validators/formValidation.js:135-137 | non-empty names of letters and spaces joined with ", " pass the authors rule |
| LegacyValidators.LegacyWebmasterIssues | validators/formValidators.js:3-25 | the webmaster form passes exactly when the names and username are non-empty, the email is valid, the phone matches, the password is strong, the confirmation is given and equals it; the mismatch issue appears exactly when the passwords differ |
| LegacyValidators.LegacyRegisterAdminIssues | validators/formValidators.js:26-47 | the registration passes exactly when the names are non-empty, the email is valid, the phone matches, the password is strong, the confirmation is given and equals it; the mismatch appears exactly when they differ |
| LegacyValidators.WebmasterIsRegisterWithUsername | validators/formValidators.js:3-47 | a webmaster form passes exactly when its username is non-empty and the registration form of its other fields passes |
| LegacyValidators.LegacyLoginIssues | validators/formValidators.js:49-54 | login passes exactly when the email is valid and non-empty and the password is non-empty |
| LegacyValidators.LegacyChangePasswordIssues | validators/formValidators.js:56-70 | the change passes exactly when the current password is given, the new one is strong, and the confirmation is given and equals it; the mismatch appears exactly when they differ |
| LegacyValidators.NewPasswordFollowsRegisterRule | validators/formValidators.js:37-65 | with the other fields valid, a new password passes the change form exactly when it passes registration |
| LegacyValidators.RegisteredPasswordLogsIn | validators/formValidators.js:26-54 | the email and password of an accepted registration pass login |
| LegacyValidators.UpcomingProjectIssues | validators/formValidators.js:72-79 | an upcoming project passes exactly when its title is non-empty and its objective has at least five characters; an empty title is reported on `title` |
| FooterEditor.AddSocialLink | src/pages/Navigation/components/FooterSection.jsx:22-38 | with platform or URL missing nothing changes. Otherwise the handler throws exactly when the footer has no social-link list; with a list, one link with the fresh id is appended, the rest of the footer is kept and the inputs clear |
| FooterEditor.AddNewColumn | src/pages/Navigation/components/FooterSection.jsx:40-56 | with no title nothing changes. Otherwise the handler throws exactly when the footer has no column list; with a list, one empty column is appended and the title input clears |
| FooterEditor.DeleteSocialLink | src/pages/Navigation/components/FooterSection.jsx:58-63 | an absent list stays absent. In a present list every link with the id goes and every other stays, in order and with its number of copies; nothing else changes |
| FooterEditor.DeleteColumn | src/pages/Navigation/components/FooterSection.jsx:65-70 | an absent list stays absent. In a present list every column with the id goes and every other stays, in order and with its number of copies; nothing else changes |
| FooterEditor.DeleteUndoesAddSocialLink | src/pages/Navigation/components/FooterSection.jsx:22-63 | deleting the link just added under an unused id restores the footer |
| FooterEditor.DeleteUndoesAddColumn | src/pages/Navigation/components/FooterSection.jsx:40-70 | deleting the column just added under an unused id restores the footer |
| FooterEditor.EmptyFooterObject | src/pages/Navigation/components/FooterSection.jsx:22-70 | on the empty footer the page starts with, both adds throw and both deletes leave it as it is |
| FooterEditor.AddLinkToColumn | src/pages/Navigation/components/FooterSection.jsx:72-88 | without a column list nothing changes; otherwise each column with the id gets one blank link at the end, and other columns and fields are unchanged |
| FooterEditor.DeleteLinkFromColumn | src/pages/Navigation/components/FooterSection.jsx:90-103 | without a column list nothing changes. Inside the columns with the id, links with the link id go and the others stay in order, with their number of copies; nothing else changes |
| FooterEditor.DeleteUndoesAddLink | src/pages/Navigation/components/FooterSection.jsx:72-103 | deleting the blank link just added under an unused id restores the footer |
| FooterEditor.UpdateText | src/pages/Navigation/components/FooterSection.jsx:105-107 | exactly the named text field takes the value |
| FooterEditor.RemoveLogo | src/pages/Navigation/components/FooterSection.jsx:163 | the logo is cleared and nothing else changes |
| FooterEditor.UpdateColumnTitle | src/pages/Navigation/components/FooterSection.jsx:109-116 | matching columns take the title and keep their links; others are unchanged |
| FooterEditor.UpdateColumnLink | src/pages/Navigation/components/FooterSection.jsx:118-133 | inside matching columns, matching links take the field value; every other link and column is unchanged |
| FooterEditor.UpdateColumnLinkLastWins | src/pages/Navigation/components/FooterSection.jsx:118-133 | of two edits of the same link field, the later one wins |
| FooterEditor.UpdateColumnTitleLastWins | src/pages/Navigation/components/FooterSection.jsx:109-116 | of two edits of a column title, the later one wins |
| NavigationEditor.FindById | src/pages/Navigation/components/NavigationSection.jsx:134-135 | `find` returns the first link with that id, and nothing exactly when no link has it |
| NavigationEditor.ToggleDropdown | src/pages/Navigation/components/NavigationSection.jsx:82-84 | the dropdown of the id flips and every other keeps its state |
| NavigationEditor.ToggleDropdownTwice | src/pages/Navigation/components/NavigationSection.jsx:82-84 | toggling twice restores every dropdown |
| NavigationEditor.Move | src/pages/Navigation/components/NavigationSection.jsx:98-100 | the two splices keep the length and the elements, put the moved element at the drop index and keep the others in their order |
| NavigationEditor.MoveBack | src/pages/Navigation/components/NavigationSection.jsx:98-100 | dragging the element back to where it came from restores the list |
| NavigationEditor.DragStart | src/pages/Navigation/components/NavigationSection.jsx:86-88 | the drag index is recorded and nothing else changes |
| NavigationEditor.HandleDrop | src/pages/Navigation/components/NavigationSection.jsx:94-107 | with nothing dragged or a drop on itself nothing changes; otherwise the element moves, the order becomes dirty and the drag ends |
| NavigationEditor.SaveOrder | src/pages/Navigation/components/NavigationSection.jsx:109-123 | nothing happens unless the order is dirty and no save runs; otherwise one update per link, in list order, carries that link with its position as `order`, and the order becomes clean |
| NavigationEditor.NumberedSortsBack | src/pages/Navigation/components/NavigationSection.jsx:109-123 | sorting the saved links by `order` gives back exactly the saved list |
| NavigationEditor.CollapseWhitespace | src/pages/Navigation/components/NavigationSection.jsx:128 | the result has no white space, and every character is a hyphen or comes from the input; a blank input becomes one hyphen; a text without white space is unchanged |
| NavigationEditor.CollapseRun | src/pages/Navigation/components/NavigationSection.jsx:128 | a run of white space between two words becomes exactly one hyphen, and the text on each side is collapsed on its own |
| NavigationEditor.SlugJoinsWords | src/pages/Navigation/components/NavigationSection.jsx:128 | two words separated by white space give their slugs joined by one hyphen |
| NavigationEditor.SlugIsPageId | src/pages/Navigation/components/NavigationSection.jsx:128 | a name of letters, digits, hyphens and single spaces gives a page id that the page-id rule accepts |
| NavigationEditor.NewLinkObj | src/pages/Navigation/components/NavigationSection.jsx:126-132 | the new link keeps name, path and icon, has no id, children, content or order, uses the given page id or else the slug, and its type is never empty |
| NavigationEditor.ChildLinkIsCustom | src/pages/Navigation/components/NavigationSection.jsx:126-132 | a child link always gets the slug id and the type "custom", since its schema drops page id and type |
| NavigationEditor.PageLinkKeepsPageId | src/pages/Navigation/components/NavigationSection.jsx:126-132 | a top-level link that passed the page schema keeps its own page id and type |
| NavigationEditor.MapChildren | src/pages/Navigation/components/NavigationSection.jsx:136-143 | only the children of links with the parent id change; ids and length are kept |
| NavigationEditor.ReplaceById | src/pages/Navigation/components/NavigationSection.jsx:137-139 | every link with the id is replaced and the others are kept in place |
| NavigationEditor.SubmitAsWritten | src/pages/Navigation/components/NavigationSection.jsx:125-171 | the form closes. A top-level edit replaces the edited link with the new object in place and sends it, and afterwards no link carries the edited id. A child edit replaces the edited children of the parent with the new object, which has no id |
| NavigationEditor.EditDropsChildrenAsWritten | src/pages/Navigation/components/NavigationSection.jsx:126-148 | as written, a top-level edit leaves the edited link with no children and empty content, and sends it so |
| NavigationEditor.EditedLink | src/pages/Navigation/components/NavigationSection.jsx:145-148 | the corrected replacement carries the edited id, the submitted fields, and the children and content of the link being edited |
| NavigationEditor.Submit | src/pages/Navigation/components/NavigationSection.jsx:125-171 | every branch closes the form. Edits keep all ids. A top-level edit updates the edited link in place, keeping the children and content of the first link with that id. A new top-level link is appended and created. A new child is appended to its parent, and the parent is sent |
| NavigationEditor.EditKeepsChildren | src/pages/Navigation/components/NavigationSection.jsx:145-148 | with a unique id, the corrected top-level edit keeps the link's children and content, and sends the link as it now stands in the list |
| NavigationEditor.EditChildKeepsChildIds | src/pages/Navigation/components/NavigationSection.jsx:134-144 | in the corrected editor, editing a child keeps the ids of all the parent's children |
| NavigationEditor.StartEdit | src/pages/Navigation/components/NavigationSection.jsx:173-192 | the form opens exactly when the link is found (a child through the first link with the parent id), loaded with all five of its fields; otherwise nothing changes |
| NavigationEditor.ReopenAndSaveKeepsPage | src/pages/Navigation/components/NavigationSection.jsx:126-192 | in the corrected editor, opening a page with a unique id and saving the loaded form unchanged leaves every link as it was, except the page's `order` |
| NavigationEditor.EditTwiceCreatesDuplicate | src/pages/Navigation/components/NavigationSection.jsx:145-148 | editing a page twice as written sends a create on the second submit |
| NavigationEditor.EditTwiceUpdates | src/pages/Navigation/components/NavigationSection.jsx:145-148 | with the id kept, the second edit updates the same page |
| NavigationEditor.EditChildTwiceAppendsAsWritten | src/pages/Navigation/components/NavigationSection.jsx:134-192 | editing a child twice as written appends a second child on the second submit |
| NavigationEditor.EditChildTwiceReplaces | src/pages/Navigation/components/NavigationSection.jsx:134-192 | with the child's id kept, the second edit replaces the same child |
| NavigationEditor.DeleteChild | src/pages/Navigation/components/NavigationSection.jsx:194-205 | the parent loses every child with the id and keeps the rest in order, with their number of copies; other links are unchanged; the parent is sent |
| NavigationEditor.DeleteTopLevel | src/pages/Navigation/components/NavigationSection.jsx:206-210 | every link with the id goes, the rest keep their order and their number of copies, and a delete for the id is sent |
| NavigationEditor.DeleteTopLevelIdempotent | src/pages/Navigation/components/NavigationSection.jsx:206-210 | deleting twice leaves what one delete leaves |
| NavigationEditor.DeleteUndoesAddTopLevel | src/pages/Navigation/components/NavigationSection.jsx:161-210 | on fetched links, deleting the id-less link just added restores the list |
| PageSections.ToggleSection | src/pages/PageInfo/Page.jsx:32-37 | the clicked section becomes active; it is open unless it was the open active section |
| PageSections.ClickingOpenCardKeepsItOpen | src/pages/PageInfo/Page.jsx:214 | as drawn, a clicked card stays open after one and after two clicks |
| PageSections.ClickFlipsCard | src/pages/PageInfo/Page.jsx:32-37 | honouring the flag, each click flips the clicked card and closes every other |
| PageSections.HandleTextChange | src/pages/PageInfo/Page.jsx:39-47 | the one field of the one section takes the value; its other field, its images and all other sections are kept |
| PageSections.TextChangeLastWins | src/pages/PageInfo/Page.jsx:39-47 | typing into the same field twice keeps the last value |
| PageSections.HandleImageChange | src/pages/PageInfo/Page.jsx:50-66 | one new image per file is appended in file order after the existing ones; text and other sections are kept |
| PageSections.HandleDeleteImage | src/pages/PageInfo/Page.jsx:68-79 | the image at the index goes and the others keep their order; nothing else changes |
| PageSections.DeleteUndoesImageChange | src/pages/PageInfo/Page.jsx:50-79 | choosing one file and deleting its preview restores the section |
| PageSections.AddSectionName | src/pages/PageInfo/Page.jsx:82-115 | a blank name gets the empty-name error and a name with a space the space error, with no request; otherwise one empty section under the lower-cased name is sent and the form resets |
| PageSections.AcceptedSectionKey | src/pages/PageInfo/Page.jsx:100-108 | an accepted key is non-empty, has no capital letter and no space |
| PageSections.ExistingUrls | src/pages/PageInfo/Page.jsx:134-138 | the URLs kept are exactly those of the stored images still present, one per stored image, in image order |
| PageSections.Entry | src/pages/PageInfo/Page.jsx:131-154 | a section's entry carries its text and kept URLs; an original is reported deleted exactly when its URL is no longer kept |
| PageSections.NewFiles | src/pages/PageInfo/Page.jsx:135-163 | the files uploaded are exactly those of the new images, one per new image, in image order |
| PageSections.AddSectionContent | src/pages/PageInfo/Page.jsx:118-170 | no request without sections; otherwise one entry per section and its new files |
| PageSections.UnchangedImagesDeleteNothing | src/pages/PageInfo/Page.jsx:134-153 | saving the images the server had deletes nothing and keeps every URL |
| PageSections.DeletedImageIsReported | src/pages/PageInfo/Page.jsx:134-153 | with distinct URLs, deleting one stored image and saving reports exactly that image |
| PageSections.OnlyDeletedIsRemoved | src/pages/PageInfo/Page.jsx:138-139 | with distinct URLs, only the deleted image's URL is missing afterwards |
| Base.SortByStable | src/pages/PageInfo/components/Events.jsx:248-253 | the sort is stable: on a list whose keys are all known, the elements with any one key come out in the order they went in |
| Base.Toggle | src/pages/PageInfo/components/Events.jsx:44-46 | clicking the expanded row collapses it; any other click expands that row (the feedback inbox's `toggleExpand` at FeedBack.jsx lines 15-17 is the same toggle, by message id) |
| Events.HandleFileSelect | src/pages/PageInfo/components/Events.jsx:77-103 | no file changes nothing; a wrong type or a file over 5 MB alerts and changes nothing; otherwise the file becomes the flyer |
| Events.FileSelectIdempotent | src/pages/PageInfo/components/Events.jsx:77-103 | choosing the same file twice is like choosing it once |
| Events.Hour12RoundTrip | src/pages/PageInfo/components/Events.jsx:217-218 | every hour shows as 1-12 with AM before noon, and the shown hour and marker give back the hour |
| Events.FormatTime | src/pages/PageInfo/components/Events.jsx:214-220 | the text always ends in " AM" or " PM" |
| Events.FormatClockTime | src/pages/PageInfo/components/Events.jsx:214-220 | an "HH:MM" time shows the 12-hour hour, the minutes and the marker |
| Events.GetEventStatus | src/pages/PageInfo/components/Events.jsx:188-199 | past exactly when the time is valid and before now; today exactly when not past and on now's day |
| Events.EventNowIsToday | src/pages/PageInfo/components/Events.jsx:188-199 | an event at now is today's; one at or after now is never past |
| Events.InvalidDateIsUpcoming | src/pages/PageInfo/components/Events.jsx:188-199 | when "Invalid Date" differs from every day's text, an event whose date does not parse is upcoming |
| Events.StatusPartition | src/pages/PageInfo/components/Events.jsx:240-245 | the three status filters split the events: their counts add up to the total |
| Events.Selected | src/pages/PageInfo/components/Events.jsx:229-245 | the kept events are exactly those passing the date and status filters, in order and with their number of copies; empty filters keep all |
| Events.SortOldest | src/pages/PageInfo/components/Events.jsx:248-253 | a permutation, in ascending date and time when all are valid |
| Events.SortLatest | src/pages/PageInfo/components/Events.jsx:254-259 | a permutation, in descending date and time when all are valid |
| Events.ShownEvents | src/pages/PageInfo/components/Events.jsx:223-263 | no list shows nothing. Otherwise the shown events are a permutation of the filtered ones. They keep the filtered order unless a sort is chosen, and are sorted the chosen way when all dates are valid |
| Events.OldestKeepsSortedList | src/pages/PageInfo/components/Events.jsx:248-253 | a list already in order is shown unchanged by "oldest" |
| FeedbackInbox.ToggleSelect | src/pages/PageInfo/components/FeedBack.jsx:35-41 | the id is selected afterwards exactly when it was not; other ids are unaffected; a new id is appended |
| FeedbackInbox.ToggleSelectTwice | src/pages/PageInfo/components/FeedBack.jsx:35-41 | selecting and unselecting restores the selection |
| FeedbackInbox.ToggleSelectKeepsValid | src/pages/PageInfo/components/FeedBack.jsx:35-41 | toggling a listed message keeps the selection distinct and listed |
| FeedbackInbox.SelectAllAsWritten | src/pages/PageInfo/components/FeedBack.jsx:76-82 | as written, the header clears when the lengths agree and otherwise selects every message |
| FeedbackInbox.SelectAll | src/pages/PageInfo/components/FeedBack.jsx:75-82 | the header clears when every message is selected and otherwise selects all, after which the header is checked |
| FeedbackInbox.HeaderAgreesWhenValid | src/pages/PageInfo/components/FeedBack.jsx:75-82 | while the selection is distinct and listed, the length test gives the intended answer |
| FeedbackInbox.SelectAllValid | src/pages/PageInfo/components/FeedBack.jsx:79 | selecting all of a list with distinct ids gives a valid selection |
| FeedbackInbox.DeleteFeedback | src/pages/PageInfo/components/FeedBack.jsx:20-24 | every message with the id goes, the rest keep their order and number of copies, and the id is sent |
| FeedbackInbox.DeleteKeepsSelectionValid | src/pages/PageInfo/components/FeedBack.jsx:20-41 | a valid selection stays valid across a single delete exactly when the deleted id was not selected |
| FeedbackInbox.DeleteSelected | src/pages/PageInfo/components/FeedBack.jsx:27-32 | the selected messages go, the rest keep their order and number of copies, the selection clears, and the old selection is sent unless it is empty |
| FeedbackInbox.DeleteSelectedLeavesNoneSelected | src/pages/PageInfo/components/FeedBack.jsx:27-32 | afterwards no selected message remains and the empty selection is valid |
| FeedbackInbox.StaleSelectionChecksHeader | src/pages/PageInfo/components/FeedBack.jsx:20-82 | after a single delete of a selected message, the header shows checked while a message is unselected |
| AdminDashboard.StatusCount | src/pages/Dashboards/DashboardWebmaster.jsx:77-79 | a count is the number of accounts with that status, 0 without a list |
| AdminDashboard.CountsPartition | src/pages/Dashboards/DashboardWebmaster.jsx:77-79 | the three counts never exceed the total, and equal it when every status is known |
| AdminDashboard.Rank | src/pages/Dashboards/DashboardWebmaster.jsx:82 | exactly the three known statuses have a rank |
| AdminDashboard.FilteredAdmins | src/pages/Dashboards/DashboardWebmaster.jsx:82-91 | no list stays no list. "all" keeps a permutation of every account, ordered by rank when all statuses are known. A status keeps exactly its accounts in their original order |
| AdminDashboard.AllFilterGroupsByStatus | src/pages/Dashboards/DashboardWebmaster.jsx:82-91 | under "all", approved accounts come first and denied ones last |
| AdminDashboard.OfferedActions | src/pages/Dashboards/DashboardWebmaster.jsx:204-248 | Remove is always offered, last; Approve exactly when not approved; Deny exactly when not denied |
| AdminDashboard.OpenModal | src/pages/Dashboards/DashboardWebmaster.jsx:31-33 | the dialog opens for the action and account with no error |
| AdminDashboard.CloseModal | src/pages/Dashboards/DashboardWebmaster.jsx:35-37 | the dialog closes, the error clears, and the action and account are kept |
| AdminDashboard.HandleModalAction | src/pages/Dashboards/DashboardWebmaster.jsx:39-63 | an empty result closes the dialog and refetches. A message is shown and the dialog stays open. A throw shows the generic error. With no action, or a call that returned undefined, the error becomes undefined and the dialog stays open |
| AdminDashboard.ConfirmAction | src/pages/Dashboards/DashboardWebmaster.jsx:31-63 | confirming a button's action sends that action for that account; success closes the dialog cleanly |
| AdminDashboard.RetryAfterFailure | src/pages/Dashboards/DashboardWebmaster.jsx:50-53 | after a failure the dialog keeps its action and account, so a retry sends the same request |
| AdminDashboard.SilentFailureKeepsDialog | src/pages/Dashboards/DashboardWebmaster.jsx:39-53 | a call that returned undefined leaves the dialog open on the same request with no message shown |
| SideMenu.DynamicIcon | src/components/Sidenav.jsx:55-60 | nothing is drawn without ':'; a drawn icon is an exported "fa" icon named by the text after "fa:" |
| SideMenu.AcceptedIconDraws | src/components/Sidenav.jsx:55-60 | every icon the link forms accept resolves in the "fa" library by the name after "fa:" |
| SideMenu.AdminLinks | src/components/Sidenav.jsx:76 | the administrators' links are exactly the non-media pages, in order |
| SideMenu.MediaLinks | src/components/Sidenav.jsx:77 | the media links are exactly the news, gallery and events pages, in order |
| SideMenu.LinksPartition | src/components/Sidenav.jsx:73-77 | every link is in exactly one of the two lists, and their lengths add up to the total |
| SideMenu.NavItems | src/components/Sidenav.jsx:87-139 | every menu ends with Change Password. The webmaster's Pages section holds all links, the admin's the admin links, and the media section the media links. Any other role gets the common menu |
| SideMenu.CommonItems | src/components/Sidenav.jsx:63-70 | the common paths are the base path followed by the role, or by nothing; Change Password has no suffix |
| SideMenu.SectionMatchesRole | src/components/Sidenav.jsx:87-135 | a page in a menu section is a listed link; administrators see no media page and media staff only media pages |
| SideMenu.Badge | src/components/Sidenav.jsx:261-265 | the badge shows the message count on the feedback entry exactly when there is feedback |
| SideMenu.BadgeByRole | src/components/Sidenav.jsx:261-265 | administrators and media staff never see the badge; the webmaster does when there is feedback |
| SideMenu.ToggleSection | src/components/Sidenav.jsx:79-84 | the named section flips and every other keeps its state |
| SideMenu.ToggleSectionTwice | src/components/Sidenav.jsx:79-84 | toggling a listed section twice restores the sections |
| SideMenu.RoleStyles | src/components/Sidenav.jsx:148-154 | background and hover use the same colour |
| SideMenu.StylesFollowTitle | src/components/Sidenav.jsx:148-164 | two roles get the same colours exactly when they get the same panel heading |
| Publications.Search | src/pages/PageInfo/components/PapersPublications.jsx:77-89 | without a list there are no results. Results are a subsequence of non-null entries. An entry is kept exactly when the lower-cased query occurs in its lower-cased title, summary or an author, with its number of copies |
| Publications.SearchIgnoresQueryCase | src/pages/PageInfo/components/PapersPublications.jsx:78 | lower-casing the query first changes nothing |
| Publications.EmptyQueryKeepsEntriesWithText | src/pages/PageInfo/components/PapersPublications.jsx:79-86 | the empty query keeps exactly the entries with a title, a summary or a non-null author |
| Publications.NarrowingQuery | src/pages/PageInfo/components/PapersPublications.jsx:79-86 | a longer query never finds an entry the shorter one missed |
| Publications.HandleEdit | src/pages/PageInfo/components/PapersPublications.jsx:53-60 | the publication becomes the one edited and fills the form. When no author contains ',', splitting the authors text at ',' gives back the first author and each later author with one space in front |
| Publications.EditFormValid | src/pages/PageInfo/components/PapersPublications.jsx:53-60 | a well-formed stored publication, reopened for editing, passes the publication rules |
| Publications.Submit | src/pages/PageInfo/components/PapersPublications.jsx:42-51 | an edit is sent exactly when an id is being edited, else a post; the form resets and editing ends |
| Publications.EditThenSubmit | src/pages/PageInfo/components/PapersPublications.jsx:42-60 | editing then submitting updates that publication, and the next submit posts a new one |
| Text.ParseInt | src/pages/PageInfo/components/Events.jsx:216 | `parseInt` gives a number exactly when a digit follows the optional white space and sign; its magnitude is the value of the leading digits, read as an unbounded integer, and it is negative only after a '-' and never positive after one |
| Text.ParseIntString | src/pages/PageInfo/components/Events.jsx:216-219 | `parseInt` reads back every integer `String` writes |
| Text.JoinSplit | src/pages/PageInfo/components/Events.jsx:215 | joining the pieces of a split with the separator gives the string back |

## Left out

- Network calls, loading flags, alerts, success pop-ups and routing. Requests are returned as values, and a server call's result is a parameter.
- Rendering, hover pop-overs, scrolling, `useClickOutside` and image previews. Object URLs are not modelled; a preview is the chosen file.
- The clock and `Date` parsing. The current time is a parameter. A `Date` is an abstract calendar: a parser to a time value, and a day name for `toDateString`.
- Ids from `Date.now()` are a parameter. A server `_id` is an optional string.
- Text: lower-casing covers ASCII letters only, and lengths count characters, not UTF-16 units.
- Text.ParseInt: the "0x" hexadecimal prefix is not modelled. The result is an unbounded integer: the rounding of a JavaScript number above 2^53, and the exponent form `String` uses from 1e21 on, are not modelled.
- The e-mail and URL formats of zod are parameters.
- zod's default messages for a non-string field, and the `children`/`content` fields of `pageSchema`, which accept anything.
- AdminDashboard.FilteredAdmins: a comparator that returns NaN for an unknown status is engine-defined. The model uses one consistent stable order and promises sortedness only when every status is known.
- NavigationEditor.SaveOrder: the requests are sequential and awaited. A failure part-way, and the `finally` that clears the saving flag, are not modelled.
- The footer logo upload, which reads a file as a data URL, is not modelled. Removing the logo is.
- The delete-confirmation dialogs, which only hold an id until confirmed, are left out of the feedback, events and publications pages.
- Publications.HandleEdit: a publication without an authors list makes the handler throw, so the model requires one.
- FooterEditor: a column's `links` list is taken to be present, as `col.links` is used without `?.`. The text fields of the empty footer object read as "" rather than undefined.
- NavigationEditor: a link's `children` list is taken to be present. Editing a child uses `link.children.map`, which would throw on a parent without one; adding a child falls back to an empty list, and so does the model.
- The events form submit, edit and delete handlers are not part of this model. The publication and navigation submits are.

## Findings

| source | as written | input that shows it | evidently intended | confidence | as-written member | corrected member |
|---|---|---|---|---|---|---|
| src/pages/Navigation/components/NavigationSection.jsx:134-148 | editing a link, top-level or child, replaces it with `newLinkObj`, which has no `_id` | edit page "p1", reopen the same row and submit again; or edit child "c1" of "P" twice | the edited link keeps its `_id`, so a second edit updates the same page or child | not executed | NavigationEditor.SubmitAsWritten, NavigationEditor.EditTwiceCreatesDuplicate, NavigationEditor.EditChildTwiceAppendsAsWritten | NavigationEditor.Submit, NavigationEditor.EditTwiceUpdates, NavigationEditor.EditChildTwiceReplaces |
| src/pages/Navigation/components/NavigationSection.jsx:126-148 | editing a top-level link puts `newLinkObj` in its place, with `children: []` and `content: {}` | edit the name of a page that has child links | the edited page keeps its children and content | not executed | NavigationEditor.SubmitAsWritten, NavigationEditor.EditDropsChildrenAsWritten | NavigationEditor.Submit, NavigationEditor.EditedLink, NavigationEditor.EditKeepsChildren |
| src/pages/PageInfo/Page.jsx:32-37,214 | a card is drawn open whenever it is the active section; the `isOpen` flag is ignored | click a section's card twice | the second click closes the card | not executed | PageSections.CardOpenAsWritten, PageSections.ClickingOpenCardKeepsItOpen | PageSections.CardOpen, PageSections.ClickFlipsCard |
| src/pages/PageInfo/components/FeedBack.jsx:20-24,75-82 | the header checkbox compares lengths, and a single delete leaves the deleted id in the selection | messages a, b, c; select a and c; delete c | the header is checked only when every listed message is selected, and clicking it selects all | not executed | FeedbackInbox.StaleSelectionChecksHeader, FeedbackInbox.SelectAllAsWritten | FeedbackInbox.SelectAll, FeedbackInbox.HeaderAgreesWhenValid |

# Student Services System — verified model of its validation rules and OTP flow

This project is a Dafny model of the rule-bearing core of a Django "Student
Services System". Students, instructors and admins use it to share course
files, manage departments, courses and groups, and reset passwords by a
one-time code (OTP) sent by e-mail. The model covers the parts of the system
that are plain rules over strings, integers and a small amount of state. The
web framework, the database and the templates around them are left out.

| module | file | what it models |
|---|---|---|
| `Outcomes` | outcomes.dfy | `Option` and `Result`, and Python truthiness of an optional string |
| `Text` | text.dfy | Python's `str.strip`, `str.split()`, `str.split(sep)`, `sep.join`, `str.lower`, `find`/`rfind`, `int()` of a digit string and `str()` of a natural number |
| `Phone` | phone.dfy | the account-request phone check `is_valid_phone_number`, and the integer range rule of `User.clean` |
| `Names` | names.dfy | `ParentAll.clean` (strip, then title-case), the name patterns of `Department`, `Course` and `Group`, and the admin's `name_initials` column |
| `Files` | files.dfy | `File.save`'s display name, `get_file_extension`, `detect_category`, `File.clean`, the upload whitelist, and the chat template filter `get_file_icon` |
| `Ordering` | ordering.dfy | the `ordering` query parameter of the four list views and its whitelist fallback |
| `StudentImport` | import_row.dfy | `StudentResource.before_import_row`, the row check of the student bulk import |
| `AdminActions` | admin_actions.dfy | `UserAdmin.save_model`, and the `approve_requests` / `reject_requests` admin actions |
| `PasswordReset` | password_reset.dfy | `request_otp`, `resend_otp`, `verify_otp` and `reset_password` as one state machine over the users, the OTP table and the session |
| `OtpTimer` | timer.dfy | the verification page's countdown script: `parseInt` of the hidden field, the `m:ss` clock, and the tick loop |

The database is modelled as values: a catalogue of names, a map from user
name (or e-mail) to account, and a sequence of OTP rows in primary-key order.
The session is a record of its three keys (`username`, `otp_verified` and
`username_verified`), each of which may be absent. Time is an integer number
of microseconds. The reading of the clock is passed in as a parameter, one
per request. `verify_otp` reads the clock twice (admin_app/views.py:531 and
563), but each path through it uses only one of the readings: a GET and a
POST without a code use the first, any other POST the second. So one
reading per request loses nothing. Random draws are parameters too: the OTP number, and the
eight digit indices of a temporary password. So is the outcome of every
e-mail send, which is one of sent, refused (`send_otp_email` returned False),
no network (`socket.gaierror`) or another exception.

The state machine's invariant `PasswordReset.Inv` says two things:
- every user has at most one OTP row, and every row belongs to an existing user;
- whenever `username_verified` is set, `username` is still set.

The main theorem is `PasswordReset.PasswordChangeNeedsVerification`. Over any
sequence of requests, a user's password changes only if some earlier
`verify_otp` succeeded for that user. That verification must have used a code
the user held and that had not yet expired.

The model follows the code as written, including these behaviours:
- The phone check's regular expression ends in `$`. In Python, `$` also
  matches just before a trailing newline, so `"711111111\n"` is accepted. Its
  company-number rule then compares the newline with the digits and never
  fires. The check's only caller, `request_account`, strips the number first
  (admin_app/views.py:259), so no request reaches this case.
- `before_import_row` looks the department up stripped. It then matches the
  courses against the department as written. So a padded department name
  passes the department check and fails on its first course.
- `verify_otp` rejects a code only when "now" is strictly after the expiry.
  A code is therefore still good at exactly five minutes.
- `approve_requests` sets and saves the temporary password before it sends
  the mail. A failed mail therefore leaves the new password in place.

## Model

| member | source | states |
|---|---|---|
| `Text.Strip` | admin_app/views.py:470 | stripping removes exactly a leading and a trailing run of Python whitespace; the result neither starts nor ends with whitespace |
| `Text.StripFacts` | admin_app/views.py:473-474 | a stripped string is empty exactly when the input is blank, and a string with no surrounding whitespace is left as it is |
| `Text.StripIdempotent` | admin_app/models.py:166 | stripping twice is stripping once |
| `Text.StripWithin` | admin_app/models.py:166 | whitespace padding around a core that neither starts nor ends with whitespace is exactly what stripping removes |
| `Text.StripOfLower` | admin_app/views.py:131 | lower-casing and stripping commute, so the library view's `.strip().lower()` is the same in either order |
| `Text.SameSpacesSameCuts` | admin_app/views.py:131 | two strings of one length with whitespace at the same places are cut at the same places |
| `Text.Lower` | admin_app/models.py:111 | `str.lower()` keeps the length and maps each character on its own |
| `Text.LowerIdempotent` | admin_app/models.py:111 | lower-casing twice is lower-casing once |
| `Text.LowerCharFacts` | admin_app/models.py:111 | lower-casing leaves no upper-case letter, and keeps letters, digits, whitespace, '.' and '/' in their classes |
| `Text.UpperCharFacts` | admin_app/admin.py:98 | upper-casing leaves no lower-case letter, and keeps letters, digits and whitespace in their classes |
| `Text.IndexOf` | admin_app/admin.py:249 | the first occurrence of a character, or -1 when there is none |
| `Text.LastIndexOf` | chat_app/templatetags/custom_filters.py:8 | the last occurrence of a character, or -1 when there is none |
| `Text.SplitOn` | admin_app/admin.py:249 | `split(',')` always gives at least one piece |
| `Text.SplitOnPieces` | admin_app/admin.py:249 | no piece of a split holds the separator |
| `Text.JoinSplitOn` | admin_app/admin.py:249 | joining the pieces of a split with the separator gives the input back |
| `Text.SplitOnJoin` | admin_app/admin.py:249 | splitting a join of separator-free pieces gives the pieces back |
| `Text.SplitAtFirst` | admin_app/admin.py:249 | the first piece ends at the first separator |
| `Text.WordLength` | admin_app/admin.py:98 | the length of the leading run of non-whitespace characters |
| `Text.Words` | admin_app/admin.py:98 | `split()` gives non-empty words that hold no whitespace |
| `Text.WordsEmptyIffBlank` | admin_app/admin.py:98 | `split()` gives no word exactly when the string is blank |
| `Text.DigitsValue` | admin_app/admin.py:245 | `int()` of a digit string of length n is below 10^n |
| `Text.NatToString` | admin_app/utils.py:7 | `str(n)` of a natural number is digits without a leading zero |
| `Text.DigitsValueOfNatToString` | admin_app/utils.py:7 | `int(str(n)) == n` |
| `Text.DigitsValueInjective` | admin_app/views.py:245-246 | digit strings of one length that denote the same number are equal |
| `Text.DigitsValueAppend` | admin_app/views.py:245-246 | the number of a concatenation of digit strings is the first number shifted by the second's length, plus the second number |
| `Text.DigitsValueSnoc` | admin_app/views.py:245-246 | appending a digit multiplies by ten and adds the digit |
| `Text.NatToStringLength` | admin_app/models.py:258-261 | `str(n)` fits in k characters exactly when n is below 10^k |
| `Phone.IsValidPhoneNumber` | admin_app/views.py:243-253 | a string that fails the `(70\|71\|73\|77\|78)` + seven digits pattern gets the Yemeni-number message; every rejection carries a non-empty message |
| `Phone.ValidPhoneNumberIsNumericRule` | admin_app/views.py:243-253 | the check accepts exactly the strings of nine digits, plus at most a trailing newline, whose leading pair is 70, 71, 73, 77 or 78, and whose last seven digits are not a multiple of 1111111 when no newline follows |
| `Phone.SevenSameIffRepunitMultiple` | admin_app/views.py:249-251 | seven digits are all the same character exactly when their number is a multiple of 1111111 |
| `Phone.RepdigitValue` | admin_app/views.py:249-251 | a run of one digit d denotes d times 11…1 |
| `Phone.CompanyRule` | admin_app/views.py:249-251 | on a well-shaped string the company-number rule fires exactly when no newline follows and the last seven digits are a multiple of 1111111 |
| `Phone.PrefixValue` | admin_app/views.py:245-246 | a two-digit prefix is one of the allowed five exactly when its number is 70, 71, 73, 77 or 78 |
| `Phone.PairAndSeven` | admin_app/views.py:249 | a nine-digit number splits into its leading pair and its last seven digits by division by ten million |
| `Phone.SplitDigits` | admin_app/views.py:245-246 | nine leading digits are the two prefix digits followed by seven digits |
| `Phone.TrailingNewlineAccepted` | admin_app/views.py:246 | `"711111111\n"` is accepted, while `"711111111"` is refused as a company number |
| `Phone.UserPhoneError` | admin_app/models.py:273-289 | a zero phone is not checked; any other is accepted exactly when it lies in 770000000–789999999, 710000000–719999999 or 730000000–739999999 and is not 777777777; the error is the range message |
| `Phone.AcceptedPhoneHasNineDigits` | admin_app/models.py:255-262 | every non-zero phone that `User.clean` accepts also passes the nine-digit field validator |
| `Phone.ViewAcceptedImpliesModelAccepted` | admin_app/views.py:285-287 | a nine-character request number that the view accepts, without the 70 prefix, is accepted by `User.clean` |
| `Phone.ModelAcceptedImpliesViewAccepted` | admin_app/models.py:273-289 | a phone that `User.clean` accepts, with a last-seven-digit part that is not a repdigit, is accepted by the view as its decimal string |
| `Phone.RulesDisagree` | admin_app/models.py:274-278 | the rules disagree both ways: 701234567 passes the view and fails the model; 711111111 fails the view and passes the model |
| `Names.TitleFrom` | admin_app/models.py:166 | title-casing keeps the length and changes each character only in case |
| `Names.TitleKeepsClass` | admin_app/models.py:175 | title-casing keeps every character in or out of the name class |
| `Names.TitleSameLetters` | admin_app/models.py:166 | title-casing keeps the name up to case |
| `Names.TitleCase` | admin_app/models.py:166 | `str.title()` keeps the length and the letters up to case, and its result is title-cased already |
| `Names.TitleIdempotent` | admin_app/models.py:166 | title-casing twice is title-casing once |
| `Names.TitleShape` | admin_app/models.py:166 | in a title-cased string a letter is upper-case exactly when it does not follow another letter |
| `Names.TitleKeepsStripped` | admin_app/models.py:166 | title-casing a stripped name leaves it stripped |
| `Names.CleanName` | admin_app/models.py:164-179 | a name is accepted exactly when its stripped form holds only characters of the entity's class; it is stored title-cased with its length kept; a refusal carries the entity's message |
| `Names.GroupRuleExtendsDepartmentRule` | admin_app/models.py:217-224 | department and course names follow one rule; a group name may also hold '-', and that is the only difference |
| `Names.CleanNameIdempotent` | admin_app/models.py:164-166 | cleaning a cleaned name again gives it back unchanged |
| `Names.InitialsOfWords` | admin_app/admin.py:98 | one character per word: the word's first character, upper-cased |
| `Names.Initials` | admin_app/admin.py:97-98 | `name_initials` gives, for each word of the name in order, its first character upper-cased; it is empty exactly for a blank name |
| `Names.InitialsLength` | admin_app/admin.py:97-98 | `name_initials` has one letter per word, none of them lower-case; a blank name gives "" |
| `Names.ScanSkipsWord` | admin_app/admin.py:98 | inside a word the scan emits nothing |
| `Names.InitialsAtWordStart` | admin_app/admin.py:98 | at a word start, the word-by-word reading emits the word's first character, upper-cased, and goes on after the word |
| `Names.ScanAtWordStart` | admin_app/admin.py:128-129 | at a word start, the scan emits the word's first character, upper-cased, and goes on after the word |
| `Names.InitialsByScan` | admin_app/admin.py:128-129 | the word-by-word initials equal those of a single left-to-right scan for word starts |
| `Files.Basename` | admin_app/models.py:81 | `os.path.basename` is the suffix after the last '/', and holds no '/' |
| `Files.SplitExt` | admin_app/models.py:110 | `os.path.splitext` splits the path into root and extension; a non-empty extension starts at the last '.', holds no other '.' and no '/' |
| `Files.RemoveChar` | admin_app/models.py:111 | `replace('.', '')` leaves no '.' and never lengthens |
| `Files.RemoveAbsentChar` | admin_app/models.py:111 | removing an absent character changes nothing |
| `Files.GetFileExtension` | admin_app/models.py:109-112 | the extension is never empty, holds no '.', '/' or upper-case letter; it is "unknown" when `splitext` finds no extension or only a bare dot, and otherwise the text after the dot, lower-cased |
| `Files.LowerHasNoSlash` | admin_app/models.py:111 | lower-casing introduces no '/' |
| `Files.LowerHasNoUpper` | admin_app/models.py:111 | the lower-cased, dot-free extension holds no upper-case letter, and no '/' when its source had none |
| `Files.ExtensionOfJoinedName` | admin_app/models.py:109-112 | for `dir/stem.e` the extension is `e` lower-cased, or "unknown" when `e` is empty |
| `Files.SplitJoinedName` | admin_app/models.py:110 | `splitext` of `dir/stem.e` is `(dir/stem, ".e")` |
| `Files.ExtensionOfDotted` | admin_app/models.py:111 | lower-casing ".e" and dropping the dot gives `e` lower-cased |
| `Files.NoDotNoExtension` | admin_app/models.py:110-112 | a base name with no dot after its leading dots (`.bashrc`, `README`) has extension "unknown" |
| `Files.AtMostOneCategorySet` | admin_app/models.py:115-121 | the seven category sets are pairwise disjoint |
| `Files.CategoryOfExtension` | admin_app/models.py:123-140 | each category is returned exactly for the extensions of its own set, whatever the order of the tests |
| `Files.DetectCategory` | admin_app/models.py:113-140 | the stored file's category is known exactly when its extension is whitelisted, and is each category exactly for that category's extensions |
| `Files.WhitelistMatchesCategories` | admin_app/models.py:26-41 | an extension is in the upload whitelist exactly when it gets a category other than "Unknown" |
| `Files.StoredValuesFitColumns` | admin_app/models.py:47-56 | for a whitelisted upload the stored type fits its 10-character column and the category its 20-character column |
| `Files.UploadsShort` | admin_app/models.py:26-41 | no whitelisted extension is longer than four characters |
| `Files.DisplayName` | admin_app/models.py:81-85 | the display name holds no '/' and is at most 100 characters; a base name of at most 100 characters is kept; a longer one becomes its first 97 characters and "..." |
| `Files.DisplayNameIdempotent` | admin_app/models.py:81-85 | a stored display name is its own display name |
| `Files.Capitalize` | admin_app/models.py:66 | `capitalize()` keeps the length, upper-cases the first character and lower-cases the rest |
| `Files.CapitalizeKeepsClass` | admin_app/models.py:71-73 | capitalizing keeps every character in or out of the description class |
| `Files.CleanFile` | admin_app/models.py:64-76 | a file over 80 × 1024 × 1024 bytes is refused with the size message; otherwise the description is accepted exactly when its stripped form holds only description characters, and is stored stripped and capitalized; every other refusal carries the description message |
| `Files.FileIcon` | chat_app/templatetags/custom_filters.py:6-16 | the icon is always one of four; jpg/png/gif give the image icon, pdf the PDF icon, doc/docx the Word icon, exactly |
| `Files.IconExtension` | chat_app/templatetags/custom_filters.py:8 | the extension the filter reads holds no dot and no upper-case letter, and is the whole name lower-cased when the name has no dot |
| `Files.LastDotOfLower` | chat_app/templatetags/custom_filters.py:8 | lower-casing moves no dot |
| `Files.IconExtensionOfLower` | chat_app/templatetags/custom_filters.py:8 | the icon extension depends on the name only up to case |
| `Files.FileIconCaseInsensitive` | chat_app/templatetags/custom_filters.py:8 | names equal up to case get the same icon, "A.PDF" and "a.pdf" among them |
| `Files.IconExtensionAgreesWithFileExtension` | chat_app/templatetags/custom_filters.py:8 | wherever `get_file_extension` finds an extension, the filter reads the same one |
| `Files.IconConsistentWithCategory` | chat_app/templatetags/custom_filters.py:9-14 | an image icon implies the Images category, and a PDF or Word icon implies Documents |
| `Files.JpegHasDefaultIcon` | chat_app/templatetags/custom_filters.py:9-16 | the converse fails: a `.jpeg` file is in Images but gets the default icon |
| `Files.JpegExtensions` | chat_app/templatetags/custom_filters.py:8 | both readings of `dir/stem.jpeg` give "jpeg" |
| `Files.JpegIsImage` | admin_app/models.py:116 | "jpeg" is in the Images set |
| `Ordering.Descending` | admin_app/views.py:162-167 | the descending half of a whitelist has one entry per ascending field |
| `Ordering.AppliedOrdering` | admin_app/views.py:162-171 | the applied ordering is always whitelisted; a whitelisted parameter is kept after normalising, and any other is replaced by the view's fallback |
| `Ordering.CanonicalIsNormal` | admin_app/views.py:131 | a field name as the whitelists write it is left unchanged by normalising |
| `Ordering.Normalise` | admin_app/views.py:131 | normalising strips the parameter and keeps its length and letters up to case; the library and student views also lower-case it, while the instructor and department views (line 788) only strip it |
| `Ordering.FieldsAscending` | admin_app/views.py:408-418 | every ascending whitelist field is a lower-case letter followed by lower-case letters and '_' |
| `Ordering.LiteralChars` | admin_app/views.py:841-852 | every character of the whitelist literals is a lower-case letter or '_' |
| `Ordering.WhitelistCanonical` | admin_app/views.py:1072 | every whitelisted field is canonical |
| `Ordering.WhitelistClosedUnderReversal` | admin_app/views.py:841-852 | every whitelist offers each field in both directions |
| `Ordering.BothDirectionsClosed` | admin_app/views.py:408-428 | ascending names followed by their descending forms are closed under reversal |
| `Ordering.WhitelistedFieldKept` | admin_app/views.py:169-171 | a whitelisted field is honoured as given |
| `Ordering.AppliedOrderingIdempotent` | admin_app/views.py:430-432 | passing the applied ordering back in, as the page's sort links do, changes nothing |
| `Ordering.AbsentOrderingUsesRequestDefault` | admin_app/views.py:339 | without the parameter each view applies its request default, which is whitelisted; it differs from the fallback exactly in the student and instructor views |
| `Ordering.NonCanonicalNotWhitelisted` | admin_app/views.py:1072-1076 | only canonical names can be whitelisted |
| `Ordering.StrippedParameterSuffices` | admin_app/views.py:1063 | surrounding whitespace never changes the applied ordering |
| `Ordering.LibraryAndStudentsIgnoreCase` | admin_app/views.py:131 | the library and student views give a parameter and its lower-cased form the same ordering |
| `Ordering.UpperCaseFallsBack` | admin_app/views.py:788 | in the instructor and department views a parameter with an upper-case letter falls back |
| `StudentImport.ValidateCourses` | admin_app/admin.py:248-268 | the course loop succeeds exactly when every course exists, belongs to the department and has the student's level; then the list is the names in input order; a failure is a course error naming one of the courses |
| `StudentImport.FirstMisfitReported` | admin_app/admin.py:252-266 | the error reported is that of the first course that does not fit |
| `StudentImport.BeforeImportRow` | admin_app/admin.py:229-270 | an accepted row has a department that exists when stripped, a level of digits between 1 and 4, and only courses that fit |
| `StudentImport.BeforeImportRowAcceptsImportable` | admin_app/admin.py:229-270 | the check accepts exactly the rows that are no duplicate, have a known department, a level 1–4 and fitting courses, and then yields the course names in input order |
| `StudentImport.CoursesListRoundTrip` | admin_app/admin.py:268 | `courses_list` joined back with ',' is the courses cell as given |
| `StudentImport.DuplicateCheckedFirst` | admin_app/admin.py:237-239 | a duplicate row is reported as a duplicate whatever its department, level and courses |
| `StudentImport.MissingFieldsRejected` | admin_app/admin.py:241-242 | a non-duplicate row without a department or a level is refused before any lookup, whatever the catalogue holds |
| `StudentImport.LevelExamples` | admin_app/admin.py:245-246 | "0", "5", "" and "+1" are not levels; "03" is level 3 |
| `StudentImport.PaddedDepartmentFailsOnCourses` | admin_app/admin.py:243-257 | a padded department name passes the department check and then fails on its first course |
| `AdminActions.DropProfile` | admin_app/admin.py:385-391 | a role change deletes exactly the profile of the old role |
| `AdminActions.SaveUser` | admin_app/admin.py:376-410 | username and role are as the form left them; the password is hashed exactly when it changed; leaving the admin role clears `is_staff` and `is_superuser`; a role change deletes the old role's profile; a new admin gets an admin profile; in every other case `is_staff` and `is_superuser` keep the form's values |
| `AdminActions.ResaveChangesNothing` | admin_app/admin.py:376-410 | saving a stored account through an unchanged form changes nothing |
| `AdminActions.RoleChangeCreatesNoProfile` | admin_app/admin.py:383-395 | changing a student to an admin deletes the student profile and creates no admin profile |
| `AdminActions.TempPassword` | admin_app/admin.py:456 | the temporary password is 8 decimal digits |
| `AdminActions.TempPasswordDecodes` | admin_app/admin.py:456 | the draws can be read back from the password |
| `AdminActions.DigitRoundTrip` | admin_app/admin.py:456 | a drawn digit index reads back from its character |
| `AdminActions.TempPasswordInjective` | admin_app/admin.py:456 | distinct draws give distinct passwords |
| `AdminActions.TempPasswordOnto` | admin_app/admin.py:456 | every string of eight digits is the password of some draws |
| `AdminActions.ApproveOne` | admin_app/admin.py:449-487 | approval mail goes out exactly when the request is approved, its e-mail belongs to a user and that user is a student or instructor, and the mail succeeds; only then is the request marked approved; only an eligible user's account can change, only in its password, and then to the hash of the drawn temporary password; no role changes |
| `AdminActions.ApprovalSetsTempPassword` | admin_app/admin.py:456-460 | an eligible user's password becomes the hash of the temporary password, even when the mail then fails and the request stays as it was |
| `AdminActions.RejectOne` | admin_app/admin.py:494-520 | rejection mail goes out exactly when the request is not approved, its e-mail belongs to no user and the mail succeeds; then the request is marked rejected; users never change |
| `AdminActions.ApproveAndRejectExclusive` | admin_app/admin.py:450-498 | approval and rejection never both succeed on one request |
| `AdminActions.ApprovedPrefixExtend` | admin_app/admin.py:449 | the requests handled so far keep their expected outcomes as the loop moves on |
| `AdminActions.ApproveRequests` | admin_app/admin.py:445-487 | over a selection, each request gets the notice and status `ApproveOne` gives it; an account changes only if it is not an admin and some flagged request names it, and then only its password, to the hash of that request's temporary password; the last flagged request naming an eligible account does set that account's password to its hashed temporary password; the set of users and their roles never change |
| `PasswordReset.GenerateOtp` | admin_app/utils.py:6-7 | a code is six digits with no leading zero, denoting the drawn number |
| `PasswordReset.OtpIsStripped` | admin_app/views.py:534 | a generated code is non-empty and survives stripping, so the code as sent can be typed back |
| `PasswordReset.SecondsLeft` | admin_app/views.py:531 | `int(total_seconds())` truncates toward zero, for negative differences too |
| `PasswordReset.WithoutUser` | admin_app/views.py:486 | deleting a user's rows keeps exactly the other users' rows |
| `PasswordReset.IssueOtpIssues` | admin_app/views.py:486-489 | after delete-and-create the user holds exactly one row, with the new code and expiry, and every other row is kept |
| `PasswordReset.IssueOtp` | admin_app/views.py:486-489 | the new row, with the user, code and expiry, comes last and is the user's only row; the rows before it are exactly the other users' rows of the old table |
| `PasswordReset.FirstIndexFor` | admin_app/views.py:530 | `.first()` is the first row of the user, or none |
| `PasswordReset.RemoveAt` | admin_app/views.py:568 | deleting a row keeps the others in order |
| `PasswordReset.WithoutUserKeepsOnePerUser` | admin_app/views.py:486 | deleting a user's rows keeps at most one row per user |
| `PasswordReset.IssueKeepsOnePerUser` | admin_app/views.py:486-489 | issuing a code keeps at most one row per user |
| `PasswordReset.IssueKeepsOwners` | admin_app/views.py:477-489 | issuing a code to an existing user keeps every row's user existing |
| `PasswordReset.RemoveDropsUser` | admin_app/views.py:568 | with one row per user, deleting a user's row leaves them without one |
| `PasswordReset.RemoveKeepsOwners` | admin_app/views.py:568 | deleting a row keeps every remaining row's user existing |
| `PasswordReset.RemoveKeepsOnePerUser` | admin_app/views.py:568 | deleting a row keeps at most one row per user |
| `PasswordReset.OnePerUserSplit` | admin_app/views.py:486 | the first row's user holds no later row, and the rest keeps one row per user |
| `PasswordReset.OnePerUserCons` | admin_app/views.py:489 | a row for a user without rows can be added keeping one row per user |
| `PasswordReset.RequestOtp` | admin_app/views.py:468-517 | a blank or unknown user changes nothing; otherwise the user's rows are replaced by one new code expiring in five minutes; the session records the user exactly when the mail was sent; the users never change |
| `PasswordReset.ResendOtp` | admin_app/views.py:625-655 | only a POST for an existing user touches the rows, and then replaces them by one new code; session and users never change; no network or a crash in the send is a server error |
| `PasswordReset.VerifyOtp` | admin_app/views.py:520-582 | anything but a successful verification changes nothing; success deletes the code row and sets `otp_verified` and `username_verified` for the session's user |
| `PasswordReset.VerifyOtpAcceptsExactly` | admin_app/views.py:557-576 | verification succeeds exactly on a POST whose stripped code equals the session user's stored code and whose clock is not after its expiry |
| `PasswordReset.NoCodeNoVerification` | admin_app/views.py:557-560 | without a row for the session's user nothing verifies |
| `PasswordReset.VerifiedCodeDeleted` | admin_app/views.py:568 | after a successful verification the user holds no code |
| `PasswordReset.OtpSingleUse` | admin_app/views.py:568-574 | after a successful verification no further verification succeeds until a new code is issued |
| `PasswordReset.VerifyFormTimeLeft` | admin_app/views.py:530-531 | the verification page shows the seconds left on the session user's first code |
| `PasswordReset.SentCodeGoodForFiveMinutes` | admin_app/views.py:563-565 | a code sent at "now" verifies exactly up to "now" plus five minutes, the bound included |
| `PasswordReset.SentCodeTimeLeft` | admin_app/views.py:488 | during the five minutes the page's time left stays within 0 to 300 seconds and starts at 300 |
| `PasswordReset.ResetPassword` | admin_app/views.py:585-623 | only a verified session's POST with a non-empty password changes a password, and only the verified user's; on success all three session keys are removed; the OTP rows never change |
| `PasswordReset.ResetAfterVerificationSucceeds` | admin_app/views.py:604-615 | from a state meeting the invariant, a reset never finds the user missing and never fails deleting the session keys |
| `PasswordReset.Step` | admin_app/views.py:468-655 | one request: users are never added or removed; only the user named in `username_verified` can have a password changed; `username_verified` is only ever newly set by a successful verification |
| `PasswordReset.Run` | admin_app/views.py:468-655 | the worlds a sequence of requests passes through, one per request after the start |
| `PasswordReset.FreshSatisfiesInv` | admin_app/views.py:468-655 | a world with no session keys and codes only for existing users meets the invariant |
| `PasswordReset.RequestOtpPreservesInv` | admin_app/views.py:468-517 | `request_otp` preserves the invariant |
| `PasswordReset.ResendOtpPreservesInv` | admin_app/views.py:625-655 | `resend_otp` preserves the invariant |
| `PasswordReset.VerifyOtpPreservesInv` | admin_app/views.py:520-582 | `verify_otp` preserves the invariant |
| `PasswordReset.ResetPasswordPreservesInv` | admin_app/views.py:585-623 | `reset_password` preserves the invariant |
| `PasswordReset.StepPreservesInv` | admin_app/views.py:468-655 | every request preserves the invariant |
| `PasswordReset.RunPreservesInv` | admin_app/views.py:468-655 | every world of a run from an invariant state meets the invariant |
| `PasswordReset.RunPrefixInv` | admin_app/views.py:468-655 | the world after any number of requests meets the invariant |
| `PasswordReset.RunKeepsUsers` | admin_app/views.py:604-607 | no run adds or removes a user |
| `PasswordReset.StepVerifiedAt` | admin_app/views.py:557-576 | a successful verification step was made with a code the user held and that had not expired |
| `PasswordReset.StepFacts` | admin_app/views.py:587-607 | one step changes a user's password only if the session had verified that user, and marks a user verified only through a successful verification |
| `PasswordReset.ChangeNeedsVerification` | admin_app/views.py:585-607 | if a user is verified or has a new password after n requests, some earlier request verified them |
| `PasswordReset.PasswordChangeNeedsVerification` | admin_app/views.py:585-607 | over any run, a user's password changes only if some earlier `verify_otp` succeeded for that user with a code they held and that had not expired |
| `OtpTimer.SkipJsSpace` | sss/static/js/user_app/timer.js:10 | `parseInt` skips exactly the leading JavaScript white space |
| `OtpTimer.DigitRun` | sss/static/js/user_app/timer.js:10 | the leading run of ASCII digits, ending at the first non-digit |
| `OtpTimer.ParseDigits` | sss/static/js/user_app/timer.js:10 | after the sign there is a number exactly when a digit follows, and it is non-negative |
| `OtpTimer.ParseInt` | sss/static/js/user_app/timer.js:10-11 | `parseInt` gives a number only when the text holds a digit |
| `OtpTimer.IntToString` | sss/static/js/user_app/timer.js:25 | the decimal form of an integer is never empty |
| `OtpTimer.DigitRunOfDigits` | sss/static/js/user_app/timer.js:10 | the digit run of digits followed by a non-digit is exactly those digits |
| `OtpTimer.ParseDigitsOfDigits` | sss/static/js/user_app/timer.js:10 | digits followed by a non-digit read back as their value |
| `OtpTimer.ParseIntOfIntToString` | sss/static/js/user_app/timer.js:10 | the server's integer, followed by anything not starting with a digit, is read back exactly |
| `OtpTimer.ParseIntOfNegative` | sss/static/js/user_app/timer.js:10 | a negative integer's decimal form is read back exactly |
| `OtpTimer.NegativeParse` | sss/static/js/user_app/timer.js:10 | a leading minus sign negates the number after it |
| `OtpTimer.UnsignedParse` | sss/static/js/user_app/timer.js:10 | a text starting with a digit has no white space and no sign to skip |
| `OtpTimer.NoDigitNoCountdown` | sss/static/js/user_app/timer.js:10-14 | a field with no digit in it is NaN |
| `OtpTimer.JsRem` | sss/static/js/user_app/timer.js:24 | JavaScript's `%` takes the sign of the dividend, its size is below the divisor, and it differs from the dividend by a multiple of the divisor, which fixes it uniquely |
| `OtpTimer.FloorDiv` | sss/static/js/user_app/timer.js:23 | `Math.floor(a / b)` is the largest q with q·b ≤ a |
| `OtpTimer.PadStart2` | sss/static/js/user_app/timer.js:25 | `padStart(2, '0')` pads with zeros on the left up to two characters and keeps the text as its suffix |
| `OtpTimer.SecondsField` | sss/static/js/user_app/timer.js:24-25 | for t ≥ 0 the seconds field is two digits denoting t mod 60, below 60 |
| `OtpTimer.ClockValueOfParts` | sss/static/js/user_app/timer.js:25 | a text of digits, ':' and two digits below 60 reads back as its minutes and seconds |
| `OtpTimer.ClockRoundTrip` | sss/static/js/user_app/timer.js:23-25 | for t ≥ 0 the clock text reads back as t |
| `OtpTimer.Clock` | sss/static/js/user_app/timer.js:23-25 | the clock text always holds ':' (so it is never the expiry text), and for t ≥ 0 it reads back as t |
| `OtpTimer.ClockInjective` | sss/static/js/user_app/timer.js:23-25 | distinct non-negative times show distinct clocks |
| `OtpTimer.ClockIsNotExpired` | sss/static/js/user_app/timer.js:25-31 | a clock text is never the expiry text |
| `OtpTimer.FullClock` | sss/static/js/user_app/timer.js:23-25 | five minutes show as "5:00" |
| `OtpTimer.NegativeClock` | sss/static/js/user_app/timer.js:23-25 | the clock text of a negative time has minus signs in both fields (-42 gives "-1:-42"); the same call then replaces it with "OTP Expired", so it is never displayed |
| `OtpTimer.UpdateTimer` | sss/static/js/user_app/timer.js:22-37 | a tick with time left shows the clock, decrements by one and schedules the next; otherwise it shows "OTP Expired", schedules nothing and shows the resend button if there is one |
| `OtpTimer.CountsDownExtend` | sss/static/js/user_app/timer.js:27-29 | appending the next clock extends the countdown by one |
| `OtpTimer.Countdown` | sss/static/js/user_app/timer.js:22-39 | from t0 the page shows the clocks of t0, t0−1, …, 1 and then "OTP Expired"; it stops with nothing scheduled and the resend button shown exactly when the page has one |
| `OtpTimer.RunTimer` | sss/static/js/user_app/timer.js:1-40 | a missing field, a missing timer or a field that is NaN shows nothing; otherwise the countdown runs from the parsed value |

## Left out

- `Files.Basename` and `Files.SplitExt` follow POSIX `os.path`: '/' is the only separator. The Windows rules of `ntpath` (a `\` separator and drive letters) are not modelled; the model assumes a POSIX host.
- Case mapping and digits are ASCII only. Python's `lower`, `upper`, `title`, `capitalize` and `\d` also act on non-ASCII letters and digits, and `title` uses Unicode title case. Python's whitespace set for `strip` and `split` is modelled in full.
- `get_human_readable_size` is left out because it formats floating point. So is the float `time_left` itself: the model keeps whole microseconds and truncates `total_seconds()` exactly, without rounding error.
- The OTP model class is not part of this model. Its fields (user, code, expiry) are inferred from how the views use it, and rows are kept in primary-key order.
- E-mail sending, random draws and the clock are parameters. The socket and SMTP exceptions become one of four send outcomes.
- Database lookups are modelled as exact membership. The database's collation may compare names without regard to case or trailing spaces.
- Querysets, pagination, search filters, templates, messages, redirects and middleware are left out.
- Users are never created or deleted by the modelled views and actions, so the user set is fixed.
- `OtpTimer.ParseInt` uses unbounded integers. JavaScript numbers lose precision above 2^53, and the model does not reproduce that.
- `OtpTimer.RunTimer` models the missing-element branches of the page as booleans. The DOM, `console.error` and the one-second `setTimeout` delay are left out. Each scheduled tick is taken as one call.
- File deletion in `File.save`, `File.delete` and the signals, validation.js and the other page scripts are left out, as host-filesystem or DOM code.
- Django's `FileExtensionValidator` is not modelled: the upload whitelist is a set of extensions, related to the categories by `Files.WhitelistMatchesCategories`.
- Import-export resources other than `before_import_row`, and the admin display configuration, are left out.
- `AdminActions.SaveUser` models the account fields the action touches. The other profile columns and the form are left out.

# Certificate e-mailing task, modelled in Dafny

This project models the scheduled task of the Moodle custom-certificate module
that issues certificates and e-mails them (`email_certificate_task::execute`),
together with the renderable it builds for each mail (`email_certificate`).

One run of the task:

1. selects the certificates configured to mail students (`emailstudents = 1`),
   teachers (`emailteachers = 1`) or extra addresses (`emailothers != ''`);
2. for each of them, reads the users holding an un-emailed issue and issues the
   certificate to every enrolled user who can see it and holds none;
3. mails everyone in the PHP array union `$issuedusers + $nonissuedusers`;
4. for each recipient:
   - takes the sender off the front of the teacher list (`array_shift`), or uses
     the administrator when there are no teachers;
   - asks for a request directory and returns `false` at once when none is given;
   - sanitises the attachment name;
   - sends the student mail, one mail to each remaining teacher, and one mail to
     each trimmed, valid comma-separated "other" address.

## Layout

- `php_strings.dfy` (`PhpStrings`): the PHP string built-ins the task uses,
  over `seq<char>`. These are `rtrim`/`trim`, one-character `str_replace`, and
  `explode` with `implode` as its proved inverse.
- `php_arrays.dfy` (`PhpArrays`): key/value arrays and the key-preserving union
  `$a + $b`, where the left value wins on a shared key and the other entries of
  the right operand follow once each, in their order.
- `seq_facts.dfy` (`SeqFacts`): generic facts about concatenation and slicing,
  used as proof steps.
- `email_certificate.dfy` (`EmailCertificateOutput`): the renderable as a class
  with the four fields and `export_for_template` as a function reading them.
- `email_certificate_task.dfy` (`EmailCertificateTask`): the run.
  - The state is two classes: `IssueTable`, the `customcert_issues` rows, which
    only `InsertRecord` changes; and `Outbox`, every mail given to `email_to_user`.
  - `Execute`, the body of its certificate loop (`HandleCertificate`) and the
    inner loops are imperative methods. Each is proved equal to a specification
    function: `Execute` to `Run`, `HandleCertificate` to `ProcessCertificate`,
    `IssueMissing` to `Eligible`, `EmailUsers` to `EmailRecipients`,
    `SendCertificate` to `MailsFor`, `SendToTeachers` to `TeacherMails` and
    `SendToOthers` to `OtherMails`.
- `task_properties.dfy` (`EmailCertificateTaskProperties`): what a run
  guarantees, proved about `Run` by induction over the certificates and the
  recipients.

The framework services are the fields of a `Host` value:
- enrolled users per course;
- certificate visibility per user;
- the ordered teacher list per context;
- the administrator;
- `fullname`, `format_string` (given the id of the context it formats in),
  `core_text::entities_to_utf8`, `strip_tags` and `validate_email`;
- whether the n-th `make_request_directory` call of the run succeeds.

A mail records its kind, recipient, sender, certificate owner, the `$info`
strings and the attachment name. The kind and `$info` are the arguments the
source gives the renderable. A bare address (`$emailuser->id = -1`) is a
`ToAddress` recipient.

Behaviour of the source that the model keeps on purpose:
- **Union drops users.** The recipient union keys the issued users by user id
  and the new users by list position. A new user at position i is therefore
  dropped when some issued user has id i (`RecipientsDropCollisions`,
  `RecipientsCollisionExample`).
- **`empty` versus the SQL test.** The selection query tests `emailothers != ''`,
  but the mailing step tests `!empty(...)`. So an `emailothers` of `"0"` selects
  the certificate but mails no extra address.
- **Issued-users order.** `$issuedusers` is keyed by user id, so a user with two
  un-emailed rows appears once, at the first row. The model takes the table
  order as the query's order.

## Model

| member | source | states |
|---|---|---|
| EmailCertificateOutput.EmailCertificate.constructor | classes/output/email_certificate.php:80-85 | the four fields hold the four arguments unchanged |
| EmailCertificateOutput.EmailCertificate.ExportForTemplate | classes/output/email_certificate.php:93-112 | each flag is set exactly when the kind is its constant, and any other kind sets `isother`; exactly one flag is set; the three strings are copied; as a function it changes no field |
| EmailCertificateOutput.TypeConstantsDistinct | classes/output/email_certificate.php:40-50 | the student, teacher and other constants 1, 2, 3 are pairwise distinct |
| EmailCertificateOutput.ExportRecoversKind | classes/output/email_certificate.php:99-105 | the kind read back from the flags is the kind for 1 and 2, and "other" for every other integer |
| PhpStrings.TrimRight | classes/task/email_certificate_task.php:144 | `rtrim`: the result is a prefix that does not end in a listed character, and only listed characters were cut |
| PhpStrings.TrimLeft | classes/task/email_certificate_task.php:180 | `ltrim`: the result is a suffix that does not start with a listed character, and only listed characters were cut |
| PhpStrings.Trim | classes/task/email_certificate_task.php:180 | `trim`: the result is a piece of the input with only PHP default whitespace before and after it, and it neither starts nor ends with such a character |
| PhpStrings.TrimIdempotent | classes/task/email_certificate_task.php:180 | trimming a trimmed string changes nothing; `OtherMailsSound` uses it to show every "other" address is its own `trim` |
| PhpStrings.ReplaceChar | classes/task/email_certificate_task.php:145 | `str_replace` of one character: same length, every needle replaced, every other character kept, so the needle no longer occurs |
| PhpStrings.Implode | classes/task/email_certificate_task.php:178 | `implode`, the inverse partner of `explode`: `Explode` gives back the input when imploded, and `ExplodeImplode` proves the other direction |
| PhpStrings.Explode | classes/task/email_certificate_task.php:178 | `explode` returns at least one piece, no piece holds the delimiter, and imploding the pieces gives back the input |
| PhpStrings.ExplodeImplode | classes/task/email_certificate_task.php:178 | `explode` undoes `implode` for delimiter-free pieces |
| PhpArrays.Keys | classes/task/email_certificate_task.php:77 | `array_keys`: the set of keys an array uses; `KeyedByIdKeys` states it for `$issuedusers` |
| PhpArrays.Values | classes/task/email_certificate_task.php:106 | the values `foreach` visits, one per entry and in entry order |
| PhpArrays.Unclaimed | classes/task/email_certificate_task.php:105 | the entries of `b` with a key outside the given set: exactly those entries, each as often as in `b` |
| PhpArrays.FreshPositionsSound | classes/task/email_certificate_task.php:105 | the listed positions are positions of `b` whose key is outside the set, in strictly increasing order |
| PhpArrays.FreshPositionsComplete | classes/task/email_certificate_task.php:105 | every position of `b` whose key is outside the set is listed |
| PhpArrays.UnclaimedInOrder | classes/task/email_certificate_task.php:105 | the unclaimed entries are the entries at those positions, in order |
| PhpArrays.Union | classes/task/email_certificate_task.php:105 | `$a + $b` keeps `a` in place, uses the keys of both, and appends exactly the entries of `b` whose key `a` lacks, each as often as in `b` |
| PhpArrays.UnionInOrder | classes/task/email_certificate_task.php:105 | the appended entries are those of `b` at the positions whose key `a` lacks, in `b`'s order |
| PhpArrays.UnionValues | classes/task/email_certificate_task.php:105-106 | iterating the union visits the values of `a` first, then the value of every `b` entry with a fresh key, and nothing else |
| PhpArrays.UnionValuesInOrder | classes/task/email_certificate_task.php:105-106 | iterating the union visits the values of `a`, then the value at each fresh position of `b`, once each and in `b`'s order |
| EmailCertificateTask.IssueTable.constructor | classes/task/email_certificate_task.php:63-70 | the table holds the given rows |
| EmailCertificateTask.IssueTable.InsertRecord | classes/task/email_certificate_task.php:96 | `insert_record` appends one row and changes nothing else |
| EmailCertificateTask.Outbox.constructor | classes/task/email_certificate_task.php:161 | the record of `email_to_user` calls starts empty |
| EmailCertificateTask.Outbox.EmailToUser | classes/task/email_certificate_task.php:161 | `email_to_user` appends one mail to the outbox |
| EmailCertificateTask.Wanted | classes/task/email_certificate_task.php:53-55 | the WHERE clause; `Selected` states which certificates it keeps |
| EmailCertificateTask.Selected | classes/task/email_certificate_task.php:46-56 | a certificate is processed iff `emailstudents = 1`, `emailteachers = 1` or `emailothers` is not empty, and as many times as the table holds it (a wanted one once per row, an unwanted one never) |
| EmailCertificateTask.IssuedUsers | classes/task/email_certificate_task.php:61-70 | the users listed are exactly those holding an un-emailed issue of the certificate, each once |
| EmailCertificateTask.Eligible | classes/task/email_certificate_task.php:72-101 | the users the issuing loop issues to; `EligibleMembers` characterises them, and `IssueMissing` is proved to compute them |
| EmailCertificateTask.EligibleMembers | classes/task/email_certificate_task.php:72-101 | a user is issued to iff enrolled, not already issued and able to see the certificate; a repeat-free enrolment gives a repeat-free list |
| EmailCertificateTask.IssuesFor | classes/task/email_certificate_task.php:88-96 | one row per newly issued user, with this certificate's id, that user and `emailed = 0` |
| EmailCertificateTask.IssueMissing | classes/task/email_certificate_task.php:72-101 | the issuing loop returns the eligible users in enrolment order and appends exactly their rows to the table |
| EmailCertificateTask.Listed | classes/task/email_certificate_task.php:100 | `$nonissuedusers`; `ListedKeys` and `ListedEntry` state its keys, values and entries |
| EmailCertificateTask.ListedKeys | classes/task/email_certificate_task.php:100 | the keys of `$nonissuedusers` are exactly its positions 0 to n - 1, and `foreach` visits the new users in order |
| EmailCertificateTask.ListedEntry | classes/task/email_certificate_task.php:100 | every entry of `$nonissuedusers` holds the new user at the position its key names |
| EmailCertificateTask.Recipients | classes/task/email_certificate_task.php:103-106 | every issued user is mailed; a new user at position i is mailed if no issued user has id i; nobody else is mailed |
| EmailCertificateTask.KeyedById | classes/task/email_certificate_task.php:69-70 | `$issuedusers`; `KeyedByIdKeys` states its keys and values |
| EmailCertificateTask.KeyedByIdKeys | classes/task/email_certificate_task.php:69-70 | `$issuedusers` is keyed by user id: its keys are exactly the issued users' ids, and `foreach` visits the issued users in order |
| EmailCertificateTask.ShiftTeachers | classes/task/email_certificate_task.php:112-118 | the sender is the first teacher, and the rest are left in order; with no teachers the sender is the administrator |
| EmailCertificateTask.InfoFor | classes/task/email_certificate_task.php:120-124 | `$info`: the recipient's full name and the course and certificate names formatted in the certificate's context; `MailsForCommon` proves every mail carries it |
| EmailCertificateTask.AttachmentName | classes/task/email_certificate_task.php:140-145 | the attachment's name; `AttachmentNameShape` states its shape |
| EmailCertificateTask.PhpEmpty | classes/task/email_certificate_task.php:177 | PHP `empty` on a string, true for "" and "0"; `MailPlan` shows it decides the "other" mails |
| EmailCertificateTask.TeacherMails | classes/task/email_certificate_task.php:172-174 | the teacher mails; `TeacherMailsShape` and `ShiftedTeacherMails` state them, and `SendToTeachers` is proved to send them |
| EmailCertificateTask.OtherMails | classes/task/email_certificate_task.php:177-196 | the "other" mails; `OtherMailsSound`, `OtherMailsComplete` and `OtherMailsAppend` state them, and `SendToOthers` is proved to send them |
| EmailCertificateTask.StudentPart | classes/task/email_certificate_task.php:153-161 | the student mail; `StudentPartShape` states it |
| EmailCertificateTask.TeacherPart | classes/task/email_certificate_task.php:163-175 | the teacher part; `TeacherPartShape` states it |
| EmailCertificateTask.OtherPart | classes/task/email_certificate_task.php:177-196 | the "other" part; `OtherPartShape` states it |
| EmailCertificateTask.MailsFor | classes/task/email_certificate_task.php:140-196 | everything mailed about one recipient, part by part; `MailPlan`, `MailsForCommon` and `MailsForWellFormed` state it, and `SendCertificate` is proved to send it |
| EmailCertificateTask.EmailRecipients | classes/task/email_certificate_task.php:106-130 | the recipient loop; `EmailRecipientsStop`, `EmailRecipientsMails`, `EmailRecipientsExtends` and `EmailRecipientsFailFast` state it, and `EmailUsers` is proved to perform it |
| EmailCertificateTask.ProcessCertificate | classes/task/email_certificate_task.php:61-130 | one certificate; `ProcessCertificateStop`, `ProcessCertificateIssues`, `ProcessCertificateMails`, `ProcessCertificateCovers` and `ProcessCertificateFailFast` state it, and `HandleCertificate` is proved to perform it |
| EmailCertificateTask.RunFrom | classes/task/email_certificate_task.php:60-202 | the certificate loop from a given state; `RunFromStop` states that a stopped loop is the outcome of one aborting certificate after completed ones, with nothing issued or mailed for any later certificate, and the other `RunFrom…` lemmas state what it appends |
| EmailCertificateTask.Run | classes/task/email_certificate_task.php:42-204 | one run; the `Run…` lemmas state it, and `Execute` is proved to perform it |
| EmailCertificateTask.SendCertificate | classes/task/email_certificate_task.php:140-196 | for one recipient, the outbox grows by exactly the planned mails `MailsFor` |
| EmailCertificateTask.SendToTeachers | classes/task/email_certificate_task.php:172-174 | one teacher mail per remaining teacher, in order |
| EmailCertificateTask.SendToOthers | classes/task/email_certificate_task.php:177-196 | one mail per piece whose trimmed form validates, in order |
| EmailCertificateTask.EmailUsers | classes/task/email_certificate_task.php:106-130 | the recipient loop performs `EmailRecipients`: mails per user, and stops the run at the first refused directory |
| EmailCertificateTask.HandleCertificate | classes/task/email_certificate_task.php:61-130 | one pass of the certificate loop leaves the table, the outbox, the request count and the flag that `ProcessCertificate` gives |
| EmailCertificateTask.Execute | classes/task/email_certificate_task.php:42-204 | the table, the outbox and the returned flag after the task are those of `Run` on the initial table and outbox |
| EmailCertificateTaskProperties.AttachmentNameShape | classes/task/email_certificate_task.php:140-145 | the name is the decoded name with trailing dots cut and "&" replaced by "_"; it holds no "&" and does not end in "." |
| EmailCertificateTaskProperties.TeacherMailsShape | classes/task/email_certificate_task.php:164-175 | teacher mail i goes to teacher i, with kind teacher, the sender, owner, info and file name |
| EmailCertificateTaskProperties.OtherMailsSound | classes/task/email_certificate_task.php:177-196 | every "other" mail goes to a valid address cut from a piece by `trim`, which trimming again leaves alone; there are no more mails than pieces |
| EmailCertificateTaskProperties.OtherMailsSingle | classes/task/email_certificate_task.php:179-194 | one piece yields exactly one mail to its trimmed form when that validates and none otherwise; with `OtherMailsAppend` this fixes the whole list |
| EmailCertificateTaskProperties.OtherMailsComplete | classes/task/email_certificate_task.php:179-194 | every piece whose trimmed form validates gets its mail |
| EmailCertificateTaskProperties.OtherMailsAppend | classes/task/email_certificate_task.php:179-195 | the "other" mails follow the pieces in order: a concatenation of lists is mailed list by list |
| EmailCertificateTaskProperties.OtherMailsRepeat | classes/task/email_certificate_task.php:179-195 | an address listed twice is mailed twice |
| EmailCertificateTaskProperties.MailPlan | classes/task/email_certificate_task.php:153-196 | per recipient: the student mail iff `emailstudents`; the teacher mails iff `emailteachers`; the "other" mails iff `emailothers` is not PHP-empty; no other kind |
| EmailCertificateTaskProperties.MailsForCommon | classes/task/email_certificate_task.php:110-145 | every mail about a recipient has the shifted-off sender, the recipient as owner, its `$info` and the sanitised name |
| EmailCertificateTaskProperties.ShiftedTeacherMails | classes/task/email_certificate_task.php:112-174 | with distinct teachers, the sender gets no teacher mail and each other teacher gets exactly one |
| EmailCertificateTaskProperties.SenderNotMailedAsTeacher | classes/task/email_certificate_task.php:112-175 | the same, for the teacher mails planned for a recipient of a certificate |
| EmailCertificateTaskProperties.MailsForWellFormed | classes/task/email_certificate_task.php:140-196 | every planned mail has a name with no "&" and no trailing "."; every bare address is trimmed and valid |
| EmailCertificateTaskProperties.RecipientsDropCollisions | classes/task/email_certificate_task.php:104-105 | with disjoint lists and distinct new users, the new user at position i is mailed iff no issued user has id i |
| EmailCertificateTaskProperties.FreePositionsSpec | classes/task/email_certificate_task.php:100-105 | the positions of the new users that the union keeps are exactly those that are no issued user's id, each once, increasing |
| EmailCertificateTaskProperties.RecipientsInOrder | classes/task/email_certificate_task.php:104-106 | the users are mailed in order: the issued users, then the new user at each kept position, by increasing position |
| EmailCertificateTaskProperties.RecipientsDistinct | classes/task/email_certificate_task.php:104-106 | with distinct issued users and distinct new users disjoint from them, nobody is mailed twice |
| EmailCertificateTaskProperties.ProcessCertificateRecipientsDistinct | classes/task/email_certificate_task.php:61-106 | with no user enrolled twice, each recipient of a certificate is mailed once |
| EmailCertificateTaskProperties.RecipientsCollisionExample | classes/task/email_certificate_task.php:105 | issued user 1, new users 5 and 7: users 1 and 5 are mailed, user 7 is not |
| EmailCertificateTaskProperties.EmailRecipientsExtends | classes/task/email_certificate_task.php:106-130 | the recipient loop leaves the table alone, only appends mails, and never resumes a stopped run |
| EmailCertificateTaskProperties.EmailRecipientsStop | classes/task/email_certificate_task.php:106-130 | the recipient loop either mails every user and asks for one directory each, or, when user k's directory is refused, has been given the k before it, has mailed exactly the planned mails of users 0 to k - 1 and asks for nothing more |
| EmailCertificateTaskProperties.EmailRecipientsMails | classes/task/email_certificate_task.php:106-130 | the recipient loop sends a prefix of the planned mails, in recipient order, and all of them when it is not stopped |
| EmailCertificateTaskProperties.PlannedWellFormed | classes/task/email_certificate_task.php:140-196 | every mail planned for a list of recipients is well formed |
| EmailCertificateTaskProperties.EmailRecipientsFailFast | classes/task/email_certificate_task.php:126-130 | the recipient loop stops right after the first refused directory |
| EmailCertificateTaskProperties.ProcessCertificateIssues | classes/task/email_certificate_task.php:61-105 | one certificate appends exactly the rows of the enrolled, visible users without an un-emailed issue, and only appends |
| EmailCertificateTaskProperties.ProcessCertificateStop | classes/task/email_certificate_task.php:61-130 | one certificate issues its missing rows, then either mails all its recipients or stops at the refused directory of recipient k, having mailed exactly the recipients before k |
| EmailCertificateTaskProperties.ProcessCertificateMails | classes/task/email_certificate_task.php:103-130 | one certificate appends the mails planned for its recipients (issued users, then new users at free indexes): a prefix of them, all of them when not stopped, every one well formed |
| EmailCertificateTaskProperties.ProcessCertificateJustified | classes/task/email_certificate_task.php:72-101 | each row one certificate appends is un-emailed, for an enrolled user who can see it and held no un-emailed issue |
| EmailCertificateTaskProperties.ProcessCertificateFailFast | classes/task/email_certificate_task.php:127-130 | after one certificate, the run is stopped exactly when a directory was refused, and no directory was asked for after it |
| EmailCertificateTaskProperties.ProcessCertificateCovers | classes/task/email_certificate_task.php:72-101 | afterwards every enrolled user who can see the certificate holds an un-emailed issue of it |
| EmailCertificateTaskProperties.ProcessCertificateRefused | classes/task/email_certificate_task.php:127-130 | a certificate whose first directory request is refused sends nothing |
| EmailCertificateTaskProperties.AppendKeepsNoDuplicate | classes/task/email_certificate_task.php:77-96 | appending rows for distinct users who held none keeps at most one un-emailed row per user and certificate |
| EmailCertificateTaskProperties.RunFromStop | classes/task/email_certificate_task.php:60-202 | a stopped certificate loop stopped in certificate j: the loop over the certificates before j completed, j was processed from that state, and nothing was done after it |
| EmailCertificateTaskProperties.RunFromExtends | classes/task/email_certificate_task.php:60-202 | from any state, the certificate loop only appends rows and mails |
| EmailCertificateTaskProperties.RunFromIssues | classes/task/email_certificate_task.php:60-202 | from any state, every row the certificate loop appends is justified by one of the certificates |
| EmailCertificateTaskProperties.RunOnlyInsertsJustifiedIssues | classes/task/email_certificate_task.php:46-101 | the run never updates or deletes a row or mail. Each new row is un-emailed and belongs to a selected certificate. It goes to an enrolled user who can see it and held no un-emailed issue |
| EmailCertificateTaskProperties.UnselectedUntouched | classes/task/email_certificate_task.php:53-56 | no row is added under the id of a certificate the query does not select |
| EmailCertificateTaskProperties.RunKeepsNoDuplicate | classes/task/email_certificate_task.php:72-101 | with repeat-free enrolments, the run keeps at most one un-emailed row per user and certificate |
| EmailCertificateTaskProperties.RunIssuesEveryone | classes/task/email_certificate_task.php:72-101 | a run that completes leaves every enrolled user who can see a selected certificate holding an un-emailed issue of it |
| EmailCertificateTaskProperties.RunFailFast | classes/task/email_certificate_task.php:60-202 | the run returns false exactly when a directory was refused, and it asks for none after that one. The certificate it stopped in is the last one processed. With every directory given, it completes |
| EmailCertificateTaskProperties.RunWithoutDirectorySendsNothing | classes/task/email_certificate_task.php:127-130 | if the first directory is refused, no mail is sent |
| EmailCertificateTaskProperties.RunSendsWellFormedMails | classes/task/email_certificate_task.php:140-196 | every mail sent has a sanitised name, and no malformed or untrimmed address is mailed |
| EmailCertificateTaskProperties.StudentsScenario | tests/email_certificate_task_test.php:50-93 | two enrolled students, one already issued: after the run the table holds two rows, the old one and the other student's |
| EmailCertificateTaskProperties.NotVisibleScenario | tests/email_certificate_task_test.php:104-129 | one student who cannot see the certificate: no row is added, no mail is sent and the run completes |

## Left out

- The database: SQL, `get_records_sql` and `insert_record` become the in-memory `IssueTable`. The join with `{user}` is taken to find every user. Issue ids, and `$enroluser->issueid`, are not modelled; they feed only the commented-out update.
- The "mark as emailed" update (line 199) is commented out in the source and so is not behaviour; the model only ever inserts rows.
- Enrolment, visibility and capabilities (`get_enrolled_users`, `get_fast_modinfo`, `get_users_by_capability`, `sort_by_roleassignment_authority`, `get_admin`): inputs of `Host`. The teacher list comes already sorted.
- StudentsScenario: it enrols only the two students. The unit test also enrols an editing teacher and expects no issue for them. That depends on the framework's enrolment and visibility, not on the task's code.
- Codes, times and temporary file names (`generate_code`, `time`, `md5`/`sesskey`/`microtime`): not modelled; rows record only certificate, user and `emailed`.
- The PDF and the file I/O (`template::generate_pdf`, `fopen`/`fputs`/`fclose`): not modelled. `make_request_directory` survives only as the success flag of each call.
- Rendering (the mustache renderers, `get_string` subjects, message bodies): not modelled. A mail records the renderable's arguments (kind and `$info`) instead.
- The sender's display name: mails record the sender's user id, not the string `fullname($userfrom)` built from it.
- `fullname`, `format_string`, `core_text::entities_to_utf8`, `strip_tags` and `validate_email` are opaque functions of `Host`.
- Exceptions thrown by framework calls are not modelled.
- `get_name` of the task is a language-string lookup and is not modelled.

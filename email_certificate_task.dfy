/** The scheduled task of classes/task/email_certificate_task.php. One run
    selects the certificates that ask for email, issues each of them to the
    enrolled users who can see it and do not yet hold an un-emailed issue, and
    mails the certificate to the student, to the course's teachers and to the
    extra addresses configured on it.

    The framework services the task calls (enrolment, visibility, teacher
    lookup, name formatting, PHP's HTML helpers, email validation and the
    request directory) are the fields of a `Host` value. The issue table and
    the mail outbox are objects the run updates. `Run` is the specification
    of one run; `Execute` is the task, proved to perform it. */
module EmailCertificateTask {
  import opened PhpStrings
  import opened PhpArrays
  import opened EmailCertificateOutput
  import opened SeqFacts

  type UserId = int

  /** One row of the certificate query: the customcert record with the ids of
      its template context and course, and the course short name. */
  datatype Certificate = Certificate(
    id: int,
    courseid: int,
    contextid: int,
    name: string,
    coursename: string,
    emailstudents: int,
    emailteachers: int,
    emailothers: string)

  /** A row of the customcert_issues table; the unique code and creation time
      are opaque values and are not kept. */
  datatype Issue = Issue(customcertid: int, userid: UserId, emailed: int)

  /** Who a mail goes to: a user of the site, or a bare address from the
      "other recipients" list (the source's stand-in user with id -1). */
  datatype Recipient = ToUser(id: UserId) | ToAddress(email: string)

  /** The strings the subject and body are built from. */
  datatype Info = Info(userfullname: string, coursename: string, certificatename: string)

  /** One call of `email_to_user`: the renderable's kind, the recipient, the
      user it is sent on behalf of, the user whose certificate is attached,
      the renderable's strings and the attachment's file name. */
  datatype Mail = Mail(
    kind: int,
    to: Recipient,
    sender: UserId,
    owner: UserId,
    info: Info,
    filename: string)

  /** The framework as the task sees it. `requestDir(n)` says whether the
      n-th call of `make_request_directory` in the run (counting from 0)
      yields a directory. */
  datatype Host = Host(
    enrolled: int -> seq<UserId>,
    visible: (int, UserId) -> bool,
    teachers: int -> seq<UserId>,
    admin: UserId,
    fullname: UserId -> string,
    formatString: (int, string) -> string,
    entitiesToUtf8: string -> string,
    stripTags: string -> string,
    validateEmail: string -> bool,
    requestDir: nat -> bool)

  /** The customcert_issues table. */
  class IssueTable {
    var rows: seq<Issue>

    constructor (rows: seq<Issue>)
      ensures this.rows == rows
    {
      this.rows := rows;
    }

    /** `insert_record`: append one row. */
    method InsertRecord(issue: Issue)
      modifies this
      ensures rows == old(rows) + [issue]
    {
      rows := rows + [issue];
    }
  }

  /** Every mail handed to `email_to_user`, in order. */
  class Outbox {
    var sent: seq<Mail>

    constructor ()
      ensures sent == []
    {
      sent := [];
    }

    method EmailToUser(mail: Mail)
      modifies this
      ensures sent == old(sent) + [mail]
    {
      sent := sent + [mail];
    }
  }

  predicate Distinct<T(==)>(s: seq<T>) {
    forall i, j :: 0 <= i < j < |s| ==> s[i] != s[j]
  }

  // ---------------------------------------------------------------------
  // Selecting the certificates

  /** The WHERE clause of the certificate query. */
  predicate Wanted(c: Certificate) {
    c.emailstudents == 1 || c.emailteachers == 1 || c.emailothers != ""
  }

  /** The certificates the query returns, in table order. */
  function Selected(certs: seq<Certificate>): (r: seq<Certificate>)
    ensures forall c :: c in r <==> c in certs && Wanted(c)
    ensures forall c :: multiset(r)[c] == if Wanted(c) then multiset(certs)[c] else 0
    ensures |r| <= |certs|
  {
    if certs == [] then []
    else
      assert certs == [certs[0]] + certs[1..];
      (if Wanted(certs[0]) then [certs[0]] else []) + Selected(certs[1..])
  }

  // ---------------------------------------------------------------------
  // Issuing

  /** User `u` holds an issue of certificate `certid` not yet marked emailed. */
  predicate Holds(issues: seq<Issue>, certid: int, u: UserId) {
    Issue(certid, u, 0) in issues
  }

  /** The keys of `$issuedusers`: the users holding an un-emailed issue of the
      certificate, each once (the query result is keyed by user id), in the
      order of their first such row. */
  function IssuedUsers(issues: seq<Issue>, certid: int): (r: seq<UserId>)
    ensures forall u :: u in r <==> Holds(issues, certid, u)
    ensures Distinct(r)
  {
    if issues == [] then []
    else
      var r := IssuedUsers(issues[..|issues| - 1], certid);
      var last := issues[|issues| - 1];
      assert issues == issues[..|issues| - 1] + [last];
      if last == Issue(certid, last.userid, 0) && last.userid !in r then r + [last.userid] else r
  }

  /** The users the issuing loop issues to, in enrolment order: enrolled, not
      already issued, and able to see the certificate. */
  function Eligible(enrolled: seq<UserId>, issued: seq<UserId>, certid: int, host: Host): seq<UserId> {
    if enrolled == [] then []
    else
      var u := enrolled[0];
      (if u !in issued && host.visible(certid, u) then [u] else []) + Eligible(enrolled[1..], issued, certid, host)
  }

  /** A user is issued to exactly when enrolled, not yet issued and able to
      see the certificate; with no user enrolled twice, nobody is issued twice. */
  lemma {:induction false} EligibleMembers(enrolled: seq<UserId>, issued: seq<UserId>, certid: int, host: Host)
    ensures var r := Eligible(enrolled, issued, certid, host);
      forall u :: u in r <==> u in enrolled && u !in issued && host.visible(certid, u)
    ensures Distinct(enrolled) ==> Distinct(Eligible(enrolled, issued, certid, host))
  {
    if enrolled != [] {
      EligibleMembers(enrolled[1..], issued, certid, host);
      assert enrolled == [enrolled[0]] + enrolled[1..];
      assert Distinct(enrolled) ==> enrolled[0] !in enrolled[1..] && Distinct(enrolled[1..]);
    }
  }

  /** The rows inserted for `users`, one each, in order, not yet emailed. */
  function IssuesFor(certid: int, users: seq<UserId>): (r: seq<Issue>)
    ensures |r| == |users|
    ensures forall k :: 0 <= k < |users| ==> r[k] == Issue(certid, users[k], 0)
  {
    if users == [] then []
    else IssuesFor(certid, users[..|users| - 1]) + [Issue(certid, users[|users| - 1], 0)]
  }

  // ---------------------------------------------------------------------
  // The recipients: `$issuedusers + $nonissuedusers`

  /** `$issuedusers`, keyed by user id. */
  function KeyedById(users: seq<UserId>): seq<Entry<UserId>> {
    seq(|users|, i requires 0 <= i < |users| => Entry(users[i], users[i]))
  }

  /** `$nonissuedusers`, built with `[] =`, so keyed by list position. */
  function Listed(users: seq<UserId>): seq<Entry<UserId>> {
    seq(|users|, i requires 0 <= i < |users| => Entry(i, users[i]))
  }

  /** The keys of `$issuedusers` are exactly the issued users' ids, and
      `foreach` visits the issued users in order. */
  lemma KeyedByIdKeys(users: seq<UserId>)
    ensures forall k :: k in Keys(KeyedById(users)) <==> k in users
    ensures Values(KeyedById(users)) == users
  {
    var a := KeyedById(users);
    forall k | k in users ensures k in Keys(a) {
      var j :| 0 <= j < |users| && users[j] == k;
      assert a[j] in a;
    }
  }

  /** The keys of `$nonissuedusers` are its positions, and `foreach` visits
      the new users in order. */
  lemma ListedKeys(users: seq<UserId>)
    ensures forall k :: k in Keys(Listed(users)) <==> 0 <= k < |users|
    ensures Values(Listed(users)) == users
  {
    var a := Listed(users);
    forall k | 0 <= k < |users| ensures k in Keys(a) {
      assert a[k] in a;
    }
  }

  /** The users the task mails, in order: every previously issued user first;
      then the newly issued user at position i, but only when i is not the id
      of a previously issued user (on a shared key the left operand wins). */
  function Recipients(issued: seq<UserId>, nonissued: seq<UserId>): (r: seq<UserId>)
    ensures issued <= r
    ensures forall i :: 0 <= i < |nonissued| && i !in issued ==> nonissued[i] in r
    ensures forall u :: u in r ==> u in issued || exists i :: 0 <= i < |nonissued| && i !in issued && nonissued[i] == u
  {
    var left, right := KeyedById(issued), Listed(nonissued);
    var r := Values(Union(left, right));
    assert issued <= r by {
      UnionValues(left, right);
      KeyedByIdKeys(issued);
    }
    assert forall i :: 0 <= i < |nonissued| && i !in issued ==> nonissued[i] in r by {
      UnionValues(left, right);
      KeyedByIdKeys(issued);
      forall i | 0 <= i < |nonissued| && i !in issued ensures nonissued[i] in r {
        assert right[i] in right && right[i] == Entry(i, nonissued[i]);
      }
    }
    assert forall u :: u in r ==> u in issued || exists i :: 0 <= i < |nonissued| && i !in issued && nonissued[i] == u by {
      UnionValues(left, right);
      KeyedByIdKeys(issued);
      forall u | u in r && u !in issued
        ensures exists i :: 0 <= i < |nonissued| && i !in issued && nonissued[i] == u
      {
        var e :| e in right && e.key !in Keys(left) && e.value == u;
        ListedEntry(nonissued, e);
      }
    }
    r
  }

  /** An entry of `$nonissuedusers` holds the user at the position its key names. */
  lemma ListedEntry(users: seq<UserId>, e: Entry<UserId>)
    requires e in Listed(users)
    ensures 0 <= e.key < |users| && users[e.key] == e.value
  {
  }

  // ---------------------------------------------------------------------
  // The mails for one recipient

  /** The sender and the teachers still to be mailed. */
  datatype SenderChoice = SenderChoice(sender: UserId, teachers: seq<UserId>)

  /** `array_shift` on the sorted teacher list: the first teacher sends and
      is taken off the list; with no teacher the administrator sends. */
  function ShiftTeachers(teachers: seq<UserId>, admin: UserId): (r: SenderChoice)
    ensures teachers != [] ==> [r.sender] + r.teachers == teachers
    ensures teachers == [] ==> r.sender == admin && r.teachers == []
  {
    if teachers != [] then SenderChoice(teachers[0], teachers[1..]) else SenderChoice(admin, [])
  }

  /** `$info`: the recipient's full name and the formatted course and
      certificate names. */
  function InfoFor(cert: Certificate, user: UserId, host: Host): Info {
    Info(host.fullname(user), host.formatString(cert.contextid, cert.coursename), host.formatString(cert.contextid, cert.name))
  }

  /** The attachment's name: course and certificate name joined by "_",
      entity-decoded and tag-stripped, trailing dots trimmed, and every "&"
      turned into "_". */
  function AttachmentName(coursename: string, certificatename: string, host: Host): string {
    var filename := coursename + "_" + certificatename;
    var decoded := host.stripTags(host.entitiesToUtf8(filename));
    var trimmed := TrimRight(decoded, {'.'});
    ReplaceChar(trimmed, '&', '_')
  }

  /** PHP's `empty` on a string: true for "" and for "0". */
  predicate PhpEmpty(s: string) {
    s == "" || s == "0"
  }

  /** One teacher mail per teacher, in order. */
  function TeacherMails(teachers: seq<UserId>, sender: UserId, owner: UserId, info: Info, filename: string): seq<Mail> {
    if teachers == [] then []
    else
      var first := Mail(EMAIL_TYPE_TEACHER, ToUser(teachers[0]), sender, owner, info, filename);
      [first] + TeacherMails(teachers[1..], sender, owner, info, filename)
  }

  /** The mails to the "other" addresses: each piece trimmed, and mailed when
      `validate_email` accepts it. */
  function OtherMails(pieces: seq<string>, validate: string -> bool, sender: UserId, owner: UserId,
                      info: Info, filename: string): seq<Mail> {
    if pieces == [] then []
    else
      var email := Trim(pieces[0]);
      (if validate(email) then [Mail(EMAIL_TYPE_OTHER, ToAddress(email), sender, owner, info, filename)] else [])
      + OtherMails(pieces[1..], validate, sender, owner, info, filename)
  }

  /** The student mail: to the recipient, when `emailstudents` is set. */
  function StudentPart(cert: Certificate, user: UserId, host: Host): seq<Mail> {
    var choice := ShiftTeachers(host.teachers(cert.contextid), host.admin);
    var info := InfoFor(cert, user, host);
    var filename := AttachmentName(info.coursename, info.certificatename, host);
    if cert.emailstudents != 0
    then [Mail(EMAIL_TYPE_STUDENT, ToUser(user), choice.sender, user, info, filename)] else []
  }

  /** The teacher mails, when `emailteachers` is set. */
  function TeacherPart(cert: Certificate, user: UserId, host: Host): seq<Mail> {
    var choice := ShiftTeachers(host.teachers(cert.contextid), host.admin);
    var info := InfoFor(cert, user, host);
    var filename := AttachmentName(info.coursename, info.certificatename, host);
    if cert.emailteachers != 0 then TeacherMails(choice.teachers, choice.sender, user, info, filename) else []
  }

  /** The mails to the "other" addresses, when `emailothers` is not PHP-empty. */
  function OtherPart(cert: Certificate, user: UserId, host: Host): seq<Mail> {
    var choice := ShiftTeachers(host.teachers(cert.contextid), host.admin);
    var info := InfoFor(cert, user, host);
    var filename := AttachmentName(info.coursename, info.certificatename, host);
    if !PhpEmpty(cert.emailothers)
    then OtherMails(Explode(cert.emailothers, ','), host.validateEmail, choice.sender, user, info, filename) else []
  }

  /** Everything mailed about one recipient's certificate, in the order the
      source sends it: the student mail, the teacher mails, the other mails. */
  function MailsFor(cert: Certificate, user: UserId, host: Host): seq<Mail> {
    StudentPart(cert, user, host) + TeacherPart(cert, user, host) + OtherPart(cert, user, host)
  }

  // ---------------------------------------------------------------------
  // One run

  /** The state of a run: the issue table, the outbox, how many request
      directories were asked for, and whether the run is still going. */
  datatype Outcome = Outcome(issues: seq<Issue>, outbox: seq<Mail>, requests: nat, completed: bool)

  /** The recipient loop: for each user, a request directory is asked for;
      if none is given the whole run stops there, otherwise the user's mails
      are sent. */
  function EmailRecipients(o: Outcome, cert: Certificate, users: seq<UserId>, host: Host): Outcome
    decreases |users|
  {
    if users == [] then o
    else if !host.requestDir(o.requests) then o.(requests := o.requests + 1, completed := false)
    else EmailRecipients(o.(outbox := o.outbox + MailsFor(cert, users[0], host), requests := o.requests + 1),
                         cert, users[1..], host)
  }

  /** One certificate: issue to the missing users, then mail everyone in the
      union when there is anyone to mail. */
  function ProcessCertificate(o: Outcome, cert: Certificate, host: Host): Outcome {
    var issued := IssuedUsers(o.issues, cert.id);
    var nonissued := Eligible(host.enrolled(cert.courseid), issued, cert.id, host);
    var o1 := o.(issues := o.issues + IssuesFor(cert.id, nonissued));
    if issued == [] && nonissued == [] then o1
    else EmailRecipients(o1, cert, Recipients(issued, nonissued), host)
  }

  /** The certificates still to process, stopping at the first abort. */
  function RunFrom(o: Outcome, certs: seq<Certificate>, host: Host): Outcome
    decreases |certs|
  {
    if certs == [] then o
    else
      var p := ProcessCertificate(o, certs[0], host);
      if !p.completed then p else RunFrom(p, certs[1..], host)
  }

  /** A whole run of the task from a given issue table and outbox. */
  function Run(issues: seq<Issue>, outbox: seq<Mail>, certs: seq<Certificate>, host: Host): Outcome {
    RunFrom(Outcome(issues, outbox, 0, true), Selected(certs), host)
  }

  // ---------------------------------------------------------------------
  // The task

  /** The issuing loop of one certificate. */
  method IssueMissing(db: IssueTable, cert: Certificate, issuedusers: seq<UserId>, host: Host)
    returns (nonissued: seq<UserId>)
    modifies db
    ensures nonissued == Eligible(host.enrolled(cert.courseid), issuedusers, cert.id, host)
    ensures db.rows == old(db.rows) + IssuesFor(cert.id, nonissued)
  {
    nonissued := [];
    var enrolled := host.enrolled(cert.courseid);
    ghost var goal := Eligible(enrolled, issuedusers, cert.id, host);
    SliceEnds(enrolled);
    var j := 0;
    while j < |enrolled|
      invariant j <= |enrolled|
      invariant nonissued + Eligible(enrolled[j..], issuedusers, cert.id, host) == goal
      invariant db.rows == old(db.rows) + IssuesFor(cert.id, nonissued)
    {
      var enroluser := enrolled[j];
      ghost var rest := Eligible(enrolled[j + 1..], issuedusers, cert.id, host);
      EligibleStep(enrolled, j, issuedusers, cert.id, host);
      // Skip users already issued, and users who cannot see the certificate.
      if enroluser !in issuedusers && host.visible(cert.id, enroluser) {
        db.InsertRecord(Issue(cert.id, enroluser, 0));
        IssuesForSnoc(cert.id, nonissued, enroluser);
        Assoc(old(db.rows), IssuesFor(cert.id, nonissued), [Issue(cert.id, enroluser, 0)]);
        Assoc(nonissued, [enroluser], rest);
        nonissued := nonissued + [enroluser];
      } else {
        EmptyAppend(rest);
      }
      j := j + 1;
    }
  }

  lemma EligibleStep(enrolled: seq<UserId>, j: nat, issued: seq<UserId>, certid: int, host: Host)
    requires j < |enrolled|
    ensures Eligible(enrolled[j..], issued, certid, host)
         == (if enrolled[j] !in issued && host.visible(certid, enrolled[j]) then [enrolled[j]] else [])
            + Eligible(enrolled[j + 1..], issued, certid, host)
  {
    assert enrolled[j..][0] == enrolled[j] && enrolled[j..][1..] == enrolled[j + 1..];
  }

  lemma IssuesForSnoc(certid: int, users: seq<UserId>, u: UserId)
    ensures IssuesFor(certid, users + [u]) == IssuesFor(certid, users) + [Issue(certid, u, 0)]
  {
    assert (users + [u])[..|users|] == users;
  }

  /** Names the attachment and sends the student, teacher and other mails
      for one recipient, given the sender choice and `$info`. */
  method SendCertificate(mail: Outbox, cert: Certificate, user: UserId, userfrom: UserId,
                         teachers: seq<UserId>, info: Info, host: Host)
    requires SenderChoice(userfrom, teachers) == ShiftTeachers(host.teachers(cert.contextid), host.admin)
    requires info == InfoFor(cert, user, host)
    modifies mail
    ensures mail.sent == old(mail.sent) + MailsFor(cert, user, host)
  {
    var filename := info.coursename + "_" + info.certificatename;
    filename := host.entitiesToUtf8(filename);
    filename := host.stripTags(filename);
    filename := TrimRight(filename, {'.'});
    filename := ReplaceChar(filename, '&', '_');
    assert filename == AttachmentName(info.coursename, info.certificatename, host);

    ghost var studentPart := StudentPart(cert, user, host);
    ghost var teacherPart := TeacherPart(cert, user, host);
    ghost var otherPart := OtherPart(cert, user, host);

    if cert.emailstudents != 0 {
      mail.EmailToUser(Mail(EMAIL_TYPE_STUDENT, ToUser(user), userfrom, user, info, filename));
    }
    ghost var afterStudent := mail.sent;
    assert afterStudent == old(mail.sent) + studentPart;
    if cert.emailteachers != 0 {
      SendToTeachers(mail, teachers, userfrom, user, info, filename);
    }
    assert mail.sent == afterStudent + teacherPart;
    ghost var afterTeachers := mail.sent;
    if !PhpEmpty(cert.emailothers) {
      var others := Explode(cert.emailothers, ',');
      SendToOthers(mail, others, host.validateEmail, userfrom, user, info, filename);
    }
    assert mail.sent == afterTeachers + otherPart;
    AppendAssoc(old(mail.sent), studentPart, teacherPart, otherPart);
  }

  /** The teacher loop: one mail to every teacher left after the shift. */
  method SendToTeachers(mail: Outbox, teachers: seq<UserId>, userfrom: UserId, user: UserId, info: Info, filename: string)
    modifies mail
    ensures mail.sent == old(mail.sent) + TeacherMails(teachers, userfrom, user, info, filename)
  {
    ghost var goal := mail.sent + TeacherMails(teachers, userfrom, user, info, filename);
    assert teachers[0..] == teachers;
    for t := 0 to |teachers|
      invariant mail.sent + TeacherMails(teachers[t..], userfrom, user, info, filename) == goal
    {
      assert teachers[t..][0] == teachers[t] && teachers[t..][1..] == teachers[t + 1..];
      mail.EmailToUser(Mail(EMAIL_TYPE_TEACHER, ToUser(teachers[t]), userfrom, user, info, filename));
    }
    assert teachers[|teachers|..] == [];
  }

  /** The "other" loop: each piece trimmed, and mailed when it validates. */
  method SendToOthers(mail: Outbox, others: seq<string>, validate: string -> bool, userfrom: UserId, user: UserId,
                      info: Info, filename: string)
    modifies mail
    ensures mail.sent == old(mail.sent) + OtherMails(others, validate, userfrom, user, info, filename)
  {
    ghost var goal := mail.sent + OtherMails(others, validate, userfrom, user, info, filename);
    SliceEnds(others);
    for j := 0 to |others|
      invariant mail.sent + OtherMails(others[j..], validate, userfrom, user, info, filename) == goal
    {
      ghost var before := mail.sent;
      ghost var rest := OtherMails(others[j + 1..], validate, userfrom, user, info, filename);
      OtherMailsStep(others, j, validate, userfrom, user, info, filename);
      var email := Trim(others[j]);
      if validate(email) {
        var m := Mail(EMAIL_TYPE_OTHER, ToAddress(email), userfrom, user, info, filename);
        mail.EmailToUser(m);
        Assoc(before, [m], rest);
      } else {
        EmptyAppend(rest);
      }
    }
  }

  lemma OtherMailsStep(others: seq<string>, j: nat, validate: string -> bool, userfrom: UserId, user: UserId,
                       info: Info, filename: string)
    requires j < |others|
    ensures OtherMails(others[j..], validate, userfrom, user, info, filename)
         == (if validate(Trim(others[j]))
             then [Mail(EMAIL_TYPE_OTHER, ToAddress(Trim(others[j])), userfrom, user, info, filename)] else [])
            + OtherMails(others[j + 1..], validate, userfrom, user, info, filename)
  {
    assert others[j..][0] == others[j] && others[j..][1..] == others[j + 1..];
  }

  /** The recipient loop of one certificate: per user, the sender choice and
      `$info`, then a request directory (the run stops when none is given),
      then the mails. `issues` is the issue table, which the loop leaves as
      it is. */
  method EmailUsers(mail: Outbox, cert: Certificate, users: seq<UserId>, ghost issues: seq<Issue>,
                    requests0: nat, host: Host)
    returns (requests: nat, completed: bool)
    modifies mail
    ensures EmailRecipients(Outcome(issues, old(mail.sent), requests0, true), cert, users, host)
         == Outcome(issues, mail.sent, requests, completed)
  {
    ghost var goal := EmailRecipients(Outcome(issues, mail.sent, requests0, true), cert, users, host);
    requests := requests0;
    for k := 0 to |users|
      invariant EmailRecipients(Outcome(issues, mail.sent, requests, true), cert, users[k..], host) == goal
    {
      var user := users[k];
      assert users[k..][0] == user && users[k..][1..] == users[k + 1..];
      var teachers := host.teachers(cert.contextid);
      var userfrom: UserId;
      if teachers != [] {
        userfrom := teachers[0];
        teachers := teachers[1..];
      } else {
        userfrom := host.admin;
      }
      var info := Info(host.fullname(user), host.formatString(cert.contextid, cert.coursename), host.formatString(cert.contextid, cert.name));
      var requestdir := host.requestDir(requests);
      requests := requests + 1;
      if !requestdir {
        completed := false;
        return;
      }
      SendCertificate(mail, cert, user, userfrom, teachers, info, host);
    }
    completed := true;
  }

  /** One pass of the certificate loop: issue the missing certificates,
      then mail everyone in the union when there is anyone to mail. */
  method HandleCertificate(db: IssueTable, mail: Outbox, cert: Certificate, requests0: nat, host: Host)
    returns (requests: nat, completed: bool)
    modifies db, mail
    ensures Outcome(db.rows, mail.sent, requests, completed)
         == ProcessCertificate(Outcome(old(db.rows), old(mail.sent), requests0, true), cert, host)
  {
    ghost var o := Outcome(db.rows, mail.sent, requests0, true);
    var issuedusers := IssuedUsers(db.rows, cert.id);
    var nonissuedusers := IssueMissing(db, cert, issuedusers, host);
    assert Outcome(db.rows, mail.sent, requests0, true) == o.(issues := o.issues + IssuesFor(cert.id, nonissuedusers));
    requests, completed := requests0, true;
    if issuedusers != [] || nonissuedusers != [] {
      var users := Recipients(issuedusers, nonissuedusers);
      requests, completed := EmailUsers(mail, cert, users, db.rows, requests0, host);
    }
  }

  /** `execute`: one run of the task. `completed` is false exactly when the
      run stopped because no request directory was given (the source's
      `return false`). */
  method Execute(db: IssueTable, mail: Outbox, certs: seq<Certificate>, host: Host)
    returns (completed: bool)
    modifies db, mail
    ensures var r := Run(old(db.rows), old(mail.sent), certs, host);
      db.rows == r.issues && mail.sent == r.outbox && completed == r.completed
  {
    var customcerts := Selected(certs);
    ghost var total := Run(db.rows, mail.sent, certs, host);
    var requests: nat := 0;
    for i := 0 to |customcerts|
      invariant RunFrom(Outcome(db.rows, mail.sent, requests, true), customcerts[i..], host) == total
    {
      assert customcerts[i..][0] == customcerts[i] && customcerts[i..][1..] == customcerts[i + 1..];
      var ok;
      requests, ok := HandleCertificate(db, mail, customcerts[i], requests, host);
      if !ok {
        // The directory request failed inside the recipient loop.
        completed := false;
        return;
      }
    }
    completed := true;
  }
}

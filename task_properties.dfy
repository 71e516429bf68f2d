/** What one run of the certificate task guarantees, proved about its
    specification `Run` (which `Execute` is proved to perform). */
module EmailCertificateTaskProperties {
  import opened PhpStrings
  import opened PhpArrays
  import opened EmailCertificateOutput
  import opened EmailCertificateTask
  import opened SeqFacts

  // ---------------------------------------------------------------------
  // Vocabulary

  /** `r` continues from `o`: rows and mails are only ever appended. */
  predicate Extends(o: Outcome, r: Outcome) {
    o.issues <= r.issues && o.outbox <= r.outbox && o.requests <= r.requests
  }

  /** Every request directory asked for so far was given. */
  predicate RequestsGranted(o: Outcome, host: Host) {
    forall n :: 0 <= n < o.requests ==> host.requestDir(n)
  }

  /** A finished run either got every directory it asked for, or stopped
      right after the first one it was refused. */
  predicate FailFast(r: Outcome, host: Host) {
    if r.completed then RequestsGranted(r, host)
    else r.requests > 0 && !host.requestDir(r.requests - 1)
         && forall n :: 0 <= n < r.requests - 1 ==> host.requestDir(n)
  }

  /** A row the run inserted: un-emailed, for a user who held no un-emailed
      issue of that certificate before the run, and who is enrolled in the
      course of a processed certificate with that id and can see it. */
  predicate IssueJustified(init: seq<Issue>, i: Issue, certs: seq<Certificate>, host: Host) {
    && i.emailed == 0
    && !Holds(init, i.customcertid, i.userid)
    && exists c :: c in certs && c.id == i.customcertid
                   && i.userid in host.enrolled(c.courseid) && host.visible(c.id, i.userid)
  }

  /** No two un-emailed rows for the same user and certificate. */
  predicate NoDuplicateUnemailed(issues: seq<Issue>) {
    forall i, j :: 0 <= i < j < |issues| && issues[i].emailed == 0 ==> issues[i] != issues[j]
  }

  /** A mail as the task may send it: the attachment name has no "&" and no
      trailing ".", and a bare address is trimmed and accepted by
      `validate_email`. */
  predicate WellFormedMail(m: Mail, host: Host) {
    && '&' !in m.filename
    && (m.filename == [] || m.filename[|m.filename| - 1] != '.')
    && (m.to.ToAddress? ==> host.validateEmail(m.to.email) && Trimmed(m.to.email))
  }

  /** The mails of one kind, in order. */
  function OfKind(ms: seq<Mail>, kind: int): (r: seq<Mail>)
    ensures forall m :: m in r <==> m in ms && m.kind == kind
  {
    if ms == [] then []
    else (if ms[0].kind == kind then [ms[0]] else []) + OfKind(ms[1..], kind)
  }

  // ---------------------------------------------------------------------
  // The attachment name

  /** The sanitised file name is the decoded name with trailing dots cut and
      each "&" replaced; it contains no "&" and does not end in ".". */
  lemma AttachmentNameShape(coursename: string, certificatename: string, host: Host)
    ensures var d := host.stripTags(host.entitiesToUtf8(coursename + "_" + certificatename));
      var r := AttachmentName(coursename, certificatename, host);
      && |r| <= |d|
      && (forall i :: 0 <= i < |r| ==> r[i] == if d[i] == '&' then '_' else d[i])
      && (forall k :: |r| <= k < |d| ==> d[k] == '.')
      && '&' !in r
      && (r == [] || r[|r| - 1] != '.')
  {
    var d := host.stripTags(host.entitiesToUtf8(coursename + "_" + certificatename));
    var t := TrimRight(d, {'.'});
    var r := ReplaceChar(t, '&', '_');
    assert r == AttachmentName(coursename, certificatename, host);
    assert forall i :: 0 <= i < |t| ==> t[i] == d[i];
  }

  // ---------------------------------------------------------------------
  // The mails for one recipient

  /** One teacher mail per remaining teacher, in order. */
  lemma {:induction false} TeacherMailsShape(teachers: seq<UserId>, sender: UserId, owner: UserId, info: Info, filename: string)
    ensures var r := TeacherMails(teachers, sender, owner, info, filename);
      && |r| == |teachers|
      && forall i :: 0 <= i < |teachers| ==> r[i] == Mail(EMAIL_TYPE_TEACHER, ToUser(teachers[i]), sender, owner, info, filename)
  {
    if teachers != [] {
      TeacherMailsShape(teachers[1..], sender, owner, info, filename);
    }
  }

  /** The head piece's contribution to the "other" mails. */
  lemma OtherMailsUnfold(pieces: seq<string>, validate: string -> bool, sender: UserId, owner: UserId,
                         info: Info, filename: string)
    requires pieces != []
    ensures OtherMails(pieces, validate, sender, owner, info, filename)
         == (if validate(Trim(pieces[0])) then [Mail(EMAIL_TYPE_OTHER, ToAddress(Trim(pieces[0])), sender, owner, info, filename)] else [])
            + OtherMails(pieces[1..], validate, sender, owner, info, filename)
  {
  }

  /** Every "other" mail goes to a trimmed address accepted by
      `validate_email` and cut from one of the pieces, which trimming again
      leaves alone; there are no more mails than pieces (`OtherMailsSingle`
      and `OtherMailsAppend` give the exact list). */
  lemma {:induction false} OtherMailsSound(pieces: seq<string>, validate: string -> bool, sender: UserId, owner: UserId,
                                           info: Info, filename: string)
    ensures var r := OtherMails(pieces, validate, sender, owner, info, filename);
      && |r| <= |pieces|
      && forall m :: m in r ==>
           && m.kind == EMAIL_TYPE_OTHER && m.to.ToAddress?
           && validate(m.to.email) && Trimmed(m.to.email) && Trim(m.to.email) == m.to.email
           && (exists p :: p in pieces && Trim(p) == m.to.email)
           && m.sender == sender && m.owner == owner && m.info == info && m.filename == filename
  {
    if pieces != [] {
      OtherMailsUnfold(pieces, validate, sender, owner, info, filename);
      OtherMailsSound(pieces[1..], validate, sender, owner, info, filename);
      var r := OtherMails(pieces, validate, sender, owner, info, filename);
      var rest := OtherMails(pieces[1..], validate, sender, owner, info, filename);
      forall m | m in r
        ensures m.kind == EMAIL_TYPE_OTHER && m.to.ToAddress? && validate(m.to.email) && Trimmed(m.to.email)
        ensures exists p :: p in pieces && Trim(p) == m.to.email
        ensures Trim(m.to.email) == m.to.email
        ensures m.sender == sender && m.owner == owner && m.info == info && m.filename == filename
      {
        if m in rest {
          var p :| p in pieces[1..] && Trim(p) == m.to.email;
          assert p in pieces;
        } else {
          assert pieces[0] in pieces;
          TrimIdempotent(pieces[0]);
        }
      }
    }
  }

  /** Every piece whose trimmed form `validate_email` accepts gets its mail. */
  lemma {:induction false} OtherMailsComplete(pieces: seq<string>, validate: string -> bool, sender: UserId, owner: UserId,
                                              info: Info, filename: string)
    ensures forall p :: p in pieces && validate(Trim(p)) ==>
      Mail(EMAIL_TYPE_OTHER, ToAddress(Trim(p)), sender, owner, info, filename)
        in OtherMails(pieces, validate, sender, owner, info, filename)
  {
    if pieces != [] {
      OtherMailsUnfold(pieces, validate, sender, owner, info, filename);
      OtherMailsComplete(pieces[1..], validate, sender, owner, info, filename);
      forall p | p in pieces && validate(Trim(p))
        ensures Mail(EMAIL_TYPE_OTHER, ToAddress(Trim(p)), sender, owner, info, filename)
                in OtherMails(pieces, validate, sender, owner, info, filename)
      {
        if p != pieces[0] {
          assert p in pieces[1..];
        }
      }
    }
  }

  /** The "other" mails follow the pieces in order, with no de-duplication:
      mailing a concatenation of lists mails each list in turn. */
  lemma {:induction false} OtherMailsAppend(ps: seq<string>, qs: seq<string>, validate: string -> bool, sender: UserId,
                                            owner: UserId, info: Info, filename: string)
    ensures OtherMails(ps + qs, validate, sender, owner, info, filename)
         == OtherMails(ps, validate, sender, owner, info, filename) + OtherMails(qs, validate, sender, owner, info, filename)
  {
    if ps == [] {
      EmptyAppend(qs);
    } else {
      var h := if validate(Trim(ps[0])) then [Mail(EMAIL_TYPE_OTHER, ToAddress(Trim(ps[0])), sender, owner, info, filename)] else [];
      var a := OtherMails(ps[1..], validate, sender, owner, info, filename);
      var b := OtherMails(qs, validate, sender, owner, info, filename);
      assert OtherMails(ps + qs, validate, sender, owner, info, filename)
          == h + OtherMails(ps[1..] + qs, validate, sender, owner, info, filename) by {
        TailOfAppend(ps, qs);
        OtherMailsUnfold(ps + qs, validate, sender, owner, info, filename);
      }
      assert OtherMails(ps, validate, sender, owner, info, filename) == h + a by {
        OtherMailsUnfold(ps, validate, sender, owner, info, filename);
      }
      assert OtherMails(ps[1..] + qs, validate, sender, owner, info, filename) == a + b by {
        OtherMailsAppend(ps[1..], qs, validate, sender, owner, info, filename);
      }
      Assoc(h, a, b);
    }
  }

  /** A single piece is mailed once when its trimmed form validates, and
      not at all otherwise. */
  lemma OtherMailsSingle(p: string, validate: string -> bool, sender: UserId, owner: UserId, info: Info, filename: string)
    ensures OtherMails([p], validate, sender, owner, info, filename)
         == if validate(Trim(p)) then [Mail(EMAIL_TYPE_OTHER, ToAddress(Trim(p)), sender, owner, info, filename)] else []
  {
    SliceEnds([p]);
    OtherMailsUnfold([p], validate, sender, owner, info, filename);
  }

  /** An address listed twice is mailed twice. */
  lemma OtherMailsRepeat(p: string, validate: string -> bool, sender: UserId, owner: UserId, info: Info, filename: string)
    requires validate(Trim(p))
    ensures var m := Mail(EMAIL_TYPE_OTHER, ToAddress(Trim(p)), sender, owner, info, filename);
      OtherMails([p, p], validate, sender, owner, info, filename) == [m, m]
  {
    var m := Mail(EMAIL_TYPE_OTHER, ToAddress(Trim(p)), sender, owner, info, filename);
    OtherMailsSingle(p, validate, sender, owner, info, filename);
    PairAppend(p);
    PairAppend(m);
    OtherMailsAppend([p], [p], validate, sender, owner, info, filename);
  }

  lemma {:induction false} OfKindAppend(a: seq<Mail>, b: seq<Mail>, kind: int)
    ensures OfKind(a + b, kind) == OfKind(a, kind) + OfKind(b, kind)
  {
    if a == [] {
      EmptyAppend(b);
    } else {
      TailOfAppend(a, b);
      var h := if a[0].kind == kind then [a[0]] else [];
      OfKindAppend(a[1..], b, kind);
      assert OfKind(a + b, kind) == h + OfKind(a[1..] + b, kind);
      assert OfKind(a, kind) == h + OfKind(a[1..], kind);
      Assoc(h, OfKind(a[1..], kind), OfKind(b, kind));
    }
  }

  /** A list of mails all of one kind is kept whole by a filter on that kind
      and dropped by a filter on any other. */
  lemma {:induction false} OfKindUniform(ms: seq<Mail>, k: int, kind: int)
    requires forall m :: m in ms ==> m.kind == k
    ensures OfKind(ms, kind) == if k == kind then ms else []
  {
    if ms != [] {
      assert ms[0] in ms;
      assert forall m :: m in ms[1..] ==> m in ms;
      OfKindUniform(ms[1..], k, kind);
      ConsTail(ms);
    }
  }

  /** A mail about `user`'s certificate as every part sends it: on behalf of
      the shifted-off teacher (or the administrator), owned by the user,
      with the user's `$info` and the sanitised attachment name. */
  predicate AboutRecipient(m: Mail, cert: Certificate, user: UserId, host: Host) {
    var info := InfoFor(cert, user, host);
    && m.sender == ShiftTeachers(host.teachers(cert.contextid), host.admin).sender
    && m.owner == user && m.info == info
    && m.filename == AttachmentName(info.coursename, info.certificatename, host)
  }

  lemma StudentPartShape(cert: Certificate, user: UserId, host: Host)
    ensures forall m :: m in StudentPart(cert, user, host) ==>
      m.kind == EMAIL_TYPE_STUDENT && m.to == ToUser(user) && AboutRecipient(m, cert, user, host)
  {
  }

  lemma TeacherPartShape(cert: Certificate, user: UserId, host: Host)
    ensures forall m :: m in TeacherPart(cert, user, host) ==>
      m.kind == EMAIL_TYPE_TEACHER && m.to.ToUser? && AboutRecipient(m, cert, user, host)
  {
    var choice := ShiftTeachers(host.teachers(cert.contextid), host.admin);
    var info := InfoFor(cert, user, host);
    TeacherMailsShape(choice.teachers, choice.sender, user, info, AttachmentName(info.coursename, info.certificatename, host));
  }

  lemma OtherPartShape(cert: Certificate, user: UserId, host: Host)
    ensures forall m :: m in OtherPart(cert, user, host) ==>
      && m.kind == EMAIL_TYPE_OTHER && m.to.ToAddress?
      && host.validateEmail(m.to.email) && Trimmed(m.to.email)
      && AboutRecipient(m, cert, user, host)
  {
    var choice := ShiftTeachers(host.teachers(cert.contextid), host.admin);
    var info := InfoFor(cert, user, host);
    OtherMailsSound(Explode(cert.emailothers, ','), host.validateEmail, choice.sender, user, info,
                    AttachmentName(info.coursename, info.certificatename, host));
  }

  /** Filtering three single-kind lists, concatenated, by one kind. */
  lemma OfKindSplit(s: seq<Mail>, t: seq<Mail>, o: seq<Mail>, kind: int)
    requires forall m :: m in s ==> m.kind == EMAIL_TYPE_STUDENT
    requires forall m :: m in t ==> m.kind == EMAIL_TYPE_TEACHER
    requires forall m :: m in o ==> m.kind == EMAIL_TYPE_OTHER
    ensures OfKind(s + t + o, kind)
         == (if kind == EMAIL_TYPE_STUDENT then s else [])
          + (if kind == EMAIL_TYPE_TEACHER then t else [])
          + (if kind == EMAIL_TYPE_OTHER then o else [])
  {
    OfKindAppend(s + t, o, kind);
    OfKindAppend(s, t, kind);
    OfKindUniform(s, EMAIL_TYPE_STUDENT, kind);
    OfKindUniform(t, EMAIL_TYPE_TEACHER, kind);
    OfKindUniform(o, EMAIL_TYPE_OTHER, kind);
  }

  /** The mail plan for one recipient, kind by kind: at most one student
      mail, to the recipient; one teacher mail to each teacher left after
      the sender is shifted off (see `TeacherMailsShape`); one mail per
      valid trimmed "other" address (see `OtherMailsSound` and
      `OtherMailsComplete`), and no mail of any other kind. */
  lemma MailPlan(cert: Certificate, user: UserId, host: Host)
    ensures var ms := MailsFor(cert, user, host);
      var choice := ShiftTeachers(host.teachers(cert.contextid), host.admin);
      var info := InfoFor(cert, user, host);
      var filename := AttachmentName(info.coursename, info.certificatename, host);
      && OfKind(ms, EMAIL_TYPE_STUDENT)
         == (if cert.emailstudents != 0 then [Mail(EMAIL_TYPE_STUDENT, ToUser(user), choice.sender, user, info, filename)] else [])
      && OfKind(ms, EMAIL_TYPE_TEACHER)
         == (if cert.emailteachers != 0 then TeacherMails(choice.teachers, choice.sender, user, info, filename) else [])
      && OfKind(ms, EMAIL_TYPE_OTHER)
         == (if !PhpEmpty(cert.emailothers)
             then OtherMails(Explode(cert.emailothers, ','), host.validateEmail, choice.sender, user, info, filename)
             else [])
      && forall m :: m in ms ==> m.kind == EMAIL_TYPE_STUDENT || m.kind == EMAIL_TYPE_TEACHER || m.kind == EMAIL_TYPE_OTHER
  {
    var s, t, o := StudentPart(cert, user, host), TeacherPart(cert, user, host), OtherPart(cert, user, host);
    StudentPartShape(cert, user, host);
    TeacherPartShape(cert, user, host);
    OtherPartShape(cert, user, host);
    OfKindSplit(s, t, o, EMAIL_TYPE_STUDENT);
    OfKindSplit(s, t, o, EMAIL_TYPE_TEACHER);
    OfKindSplit(s, t, o, EMAIL_TYPE_OTHER);
  }

  /** All mails for one recipient are sent on behalf of the shifted-off
      teacher, or the administrator when the course has none, are owned by
      the recipient, and carry the recipient's certificate under the
      sanitised name. */
  lemma MailsForCommon(cert: Certificate, user: UserId, host: Host)
    ensures forall m :: m in MailsFor(cert, user, host) ==> AboutRecipient(m, cert, user, host)
  {
    StudentPartShape(cert, user, host);
    TeacherPartShape(cert, user, host);
    OtherPartShape(cert, user, host);
  }

  /** `array_shift` of a repeat-free teacher list: the teacher mails go to
      every teacher but the first, who sends them, one mail each. */
  lemma ShiftedTeacherMails(ts: seq<UserId>, admin: UserId, owner: UserId, info: Info, filename: string)
    requires Distinct(ts)
    ensures var choice := ShiftTeachers(ts, admin);
      var ms := TeacherMails(choice.teachers, choice.sender, owner, info, filename);
      && (forall m :: m in ms ==> m.to != ToUser(m.sender))
      && (forall i :: 1 <= i < |ts| ==> exists k :: 0 <= k < |ms| && ms[k].to == ToUser(ts[i]))
      && (forall i, k, k' ::
            (1 <= i < |ts| && 0 <= k < |ms| && 0 <= k' < |ms| && ms[k].to == ToUser(ts[i]) && ms[k'].to == ToUser(ts[i]))
            ==> k == k')
  {
    var choice := ShiftTeachers(ts, admin);
    TeacherMailsShape(choice.teachers, choice.sender, owner, info, filename);
    if ts != [] {
      ShiftedSkipsSender(ts, admin, owner, info, filename);
      ShiftedReachesOthers(ts, admin, owner, info, filename);
      ShiftedOncePerTeacher(ts, admin, owner, info, filename);
    }
  }

  lemma ShiftedSkipsSender(ts: seq<UserId>, admin: UserId, owner: UserId, info: Info, filename: string)
    requires Distinct(ts) && ts != []
    ensures var choice := ShiftTeachers(ts, admin);
      forall m :: m in TeacherMails(choice.teachers, choice.sender, owner, info, filename) ==> m.to != ToUser(m.sender)
  {
    var choice := ShiftTeachers(ts, admin);
    var ms := TeacherMails(choice.teachers, choice.sender, owner, info, filename);
    TeacherMailsShape(choice.teachers, choice.sender, owner, info, filename);
    forall m | m in ms ensures m.to != ToUser(m.sender) {
      var k :| 0 <= k < |ms| && ms[k] == m;
      assert ts[k + 1] == choice.teachers[k];
    }
  }

  lemma ShiftedReachesOthers(ts: seq<UserId>, admin: UserId, owner: UserId, info: Info, filename: string)
    requires ts != []
    ensures var choice := ShiftTeachers(ts, admin);
      var ms := TeacherMails(choice.teachers, choice.sender, owner, info, filename);
      forall i :: 1 <= i < |ts| ==> exists k :: 0 <= k < |ms| && ms[k].to == ToUser(ts[i])
  {
    var choice := ShiftTeachers(ts, admin);
    var ms := TeacherMails(choice.teachers, choice.sender, owner, info, filename);
    TeacherMailsShape(choice.teachers, choice.sender, owner, info, filename);
    forall i | 1 <= i < |ts| ensures exists k :: 0 <= k < |ms| && ms[k].to == ToUser(ts[i]) {
      assert ts[i] == choice.teachers[i - 1];
      assert ms[i - 1].to == ToUser(choice.teachers[i - 1]);
    }
  }

  lemma ShiftedOncePerTeacher(ts: seq<UserId>, admin: UserId, owner: UserId, info: Info, filename: string)
    requires Distinct(ts) && ts != []
    ensures var choice := ShiftTeachers(ts, admin);
      var ms := TeacherMails(choice.teachers, choice.sender, owner, info, filename);
      forall i, k, k' ::
        (1 <= i < |ts| && 0 <= k < |ms| && 0 <= k' < |ms| && ms[k].to == ToUser(ts[i]) && ms[k'].to == ToUser(ts[i]))
        ==> k == k'
  {
    var choice := ShiftTeachers(ts, admin);
    var ms := TeacherMails(choice.teachers, choice.sender, owner, info, filename);
    TeacherMailsShape(choice.teachers, choice.sender, owner, info, filename);
    forall i, k, k' | 1 <= i < |ts| && 0 <= k < |ms| && 0 <= k' < |ms| && ms[k].to == ToUser(ts[i]) && ms[k'].to == ToUser(ts[i])
      ensures k == k'
    {
      assert ts[k + 1] == choice.teachers[k] && ts[k' + 1] == choice.teachers[k'];
    }
  }

  /** With the course's teacher list free of repeats, the sender never gets
      a teacher mail about a recipient, and, when teachers are mailed, every
      other teacher gets exactly one. */
  lemma SenderNotMailedAsTeacher(cert: Certificate, user: UserId, host: Host)
    requires Distinct(host.teachers(cert.contextid))
    ensures var ms := OfKind(MailsFor(cert, user, host), EMAIL_TYPE_TEACHER);
      var ts := host.teachers(cert.contextid);
      && (forall m :: m in ms ==> m.to != ToUser(m.sender))
      && (cert.emailteachers != 0 ==> forall i :: 1 <= i < |ts| ==> exists k :: 0 <= k < |ms| && ms[k].to == ToUser(ts[i]))
      && (forall i, k, k' ::
            (1 <= i < |ts| && 0 <= k < |ms| && 0 <= k' < |ms| && ms[k].to == ToUser(ts[i]) && ms[k'].to == ToUser(ts[i]))
            ==> k == k')
  {
    assert OfKind(MailsFor(cert, user, host), EMAIL_TYPE_TEACHER) == TeacherPart(cert, user, host) by {
      var s, t, o := StudentPart(cert, user, host), TeacherPart(cert, user, host), OtherPart(cert, user, host);
      StudentPartShape(cert, user, host);
      TeacherPartShape(cert, user, host);
      OtherPartShape(cert, user, host);
      OfKindSplit(s, t, o, EMAIL_TYPE_TEACHER);
      EmptyAppend(t);
      AppendEmpty(t);
    }
    TeacherPartReach(cert, user, host);
  }

  lemma TeacherPartReach(cert: Certificate, user: UserId, host: Host)
    requires Distinct(host.teachers(cert.contextid))
    ensures var ms := TeacherPart(cert, user, host);
      var ts := host.teachers(cert.contextid);
      && (forall m :: m in ms ==> m.to != ToUser(m.sender))
      && (cert.emailteachers != 0 ==> forall i :: 1 <= i < |ts| ==> exists k :: 0 <= k < |ms| && ms[k].to == ToUser(ts[i]))
      && (forall i, k, k' ::
            (1 <= i < |ts| && 0 <= k < |ms| && 0 <= k' < |ms| && ms[k].to == ToUser(ts[i]) && ms[k'].to == ToUser(ts[i]))
            ==> k == k')
  {
    if cert.emailteachers != 0 {
      var info := InfoFor(cert, user, host);
      ShiftedTeacherMails(host.teachers(cert.contextid), host.admin, user, info,
                          AttachmentName(info.coursename, info.certificatename, host));
    }
  }


  /** Every mail planned for a recipient is well formed. */
  lemma MailsForWellFormed(cert: Certificate, user: UserId, host: Host)
    ensures forall m :: m in MailsFor(cert, user, host) ==> WellFormedMail(m, host)
  {
    var info := InfoFor(cert, user, host);
    StudentPartShape(cert, user, host);
    TeacherPartShape(cert, user, host);
    OtherPartShape(cert, user, host);
    AttachmentNameShape(info.coursename, info.certificatename, host);
  }

  // ---------------------------------------------------------------------
  // The recipient union

  /** With the newly issued users distinct and none of them previously
      issued (as the task ensures), the one at position i is mailed exactly
      when no previously issued user has id i. */
  lemma RecipientsDropCollisions(issued: seq<UserId>, nonissued: seq<UserId>)
    requires Distinct(nonissued)
    requires forall u :: u in nonissued ==> u !in issued
    ensures forall i :: 0 <= i < |nonissued| ==> (nonissued[i] in Recipients(issued, nonissued) <==> i !in issued)
  {
    var r := Recipients(issued, nonissued);
    forall i | 0 <= i < |nonissued| && nonissued[i] in r ensures i !in issued {
      assert nonissued[i] !in issued;
      var i' :| 0 <= i' < |nonissued| && i' !in issued && nonissued[i'] == nonissued[i];
      assert i' == i;
    }
  }

  /** The positions of `$nonissuedusers` whose key no issued user's id takes,
      in increasing order. */
  function FreePositions(issued: seq<UserId>, nonissued: seq<UserId>): seq<nat> {
    FreshPositions(Listed(nonissued), Keys(KeyedById(issued)))
  }

  /** The free positions are exactly the positions of `nonissued` that are
      not the id of an issued user, each once and in increasing order. */
  lemma FreePositionsSpec(issued: seq<UserId>, nonissued: seq<UserId>)
    ensures forall i :: 0 <= i < |FreePositions(issued, nonissued)| ==>
      FreePositions(issued, nonissued)[i] < |nonissued| && FreePositions(issued, nonissued)[i] !in issued
    ensures forall p :: 0 <= p < |nonissued| && p !in issued ==> p in FreePositions(issued, nonissued)
    ensures forall i, j :: 0 <= i < j < |FreePositions(issued, nonissued)| ==>
      FreePositions(issued, nonissued)[i] < FreePositions(issued, nonissued)[j]
  {
    var b, ks := Listed(nonissued), Keys(KeyedById(issued));
    FreshPositionsSound(b, ks);
    FreshPositionsComplete(b, ks);
    KeyedByIdKeys(issued);
  }

  /** The recipients in order: the issued users, then the new user at each
      free position, in increasing order of position. */
  lemma RecipientsInOrder(issued: seq<UserId>, nonissued: seq<UserId>)
    ensures |Recipients(issued, nonissued)| == |issued| + |FreePositions(issued, nonissued)|
    ensures forall i :: 0 <= i < |FreePositions(issued, nonissued)| ==>
      FreePositions(issued, nonissued)[i] < |nonissued|
      && Recipients(issued, nonissued)[|issued| + i] == nonissued[FreePositions(issued, nonissued)[i]]
  {
    var left, right := KeyedById(issued), Listed(nonissued);
    var r, f := Recipients(issued, nonissued), FreePositions(issued, nonissued);
    assert r == Values(Union(left, right));
    assert f == FreshPositions(right, Keys(left));
    UnionValuesInOrder(left, right);
    forall i | 0 <= i < |f| ensures f[i] < |nonissued| && r[|issued| + i] == nonissued[f[i]] {
      assert right[f[i]].value == nonissued[f[i]];
    }
  }

  /** Under the same conditions, and with the issued users distinct (as
      `IssuedUsers` gives them), nobody is mailed twice for one certificate. */
  lemma RecipientsDistinct(issued: seq<UserId>, nonissued: seq<UserId>)
    requires Distinct(issued) && Distinct(nonissued)
    requires forall u :: u in nonissued ==> u !in issued
    ensures Distinct(Recipients(issued, nonissued))
  {
    var r, f := Recipients(issued, nonissued), FreePositions(issued, nonissued);
    RecipientsInOrder(issued, nonissued);
    FreePositionsSpec(issued, nonissued);
    var n := |issued|;
    forall i, j | 0 <= i < j < |r| ensures r[i] != r[j] {
      if j < n {
        assert r[i] == issued[i] && r[j] == issued[j];
      } else if i < n {
        assert r[i] == issued[i] && r[j] == nonissued[f[j - n]];
        assert nonissued[f[j - n]] in nonissued;
      } else {
        assert f[i - n] < f[j - n];
      }
    }
  }

  /** One certificate mails each recipient once when no user is enrolled
      twice in its course. */
  lemma ProcessCertificateRecipientsDistinct(o: Outcome, cert: Certificate, host: Host)
    requires Distinct(host.enrolled(cert.courseid))
    ensures var issued := IssuedUsers(o.issues, cert.id);
      Distinct(Recipients(issued, Eligible(host.enrolled(cert.courseid), issued, cert.id, host)))
  {
    var issued := IssuedUsers(o.issues, cert.id);
    EligibleMembers(host.enrolled(cert.courseid), issued, cert.id, host);
    RecipientsDistinct(issued, Eligible(host.enrolled(cert.courseid), issued, cert.id, host));
  }

  /** A concrete collision: user 1 was issued earlier, users 5 and 7 are
      new. User 7 sits at position 1, the key user 1 already holds, so the
      union drops user 7 while user 5 is mailed. */
  lemma RecipientsCollisionExample()
    ensures 1 in Recipients([1], [5, 7])
    ensures 5 in Recipients([1], [5, 7])
    ensures 7 !in Recipients([1], [5, 7])
  {
    RecipientsDropCollisions([1], [5, 7]);
    assert [5, 7][0] == 5 && [5, 7][1] == 7;
  }

  // ---------------------------------------------------------------------
  // The recipient loop

  /** The recipient loop leaves the table alone and only appends mails. */
  lemma {:induction false} EmailRecipientsExtends(o: Outcome, cert: Certificate, users: seq<UserId>, host: Host)
    ensures var r := EmailRecipients(o, cert, users, host);
      Extends(o, r) && r.issues == o.issues && (!o.completed ==> !r.completed)
    decreases |users|
  {
    if users != [] && host.requestDir(o.requests) {
      var o' := o.(outbox := o.outbox + MailsFor(cert, users[0], host), requests := o.requests + 1);
      EmailRecipientsExtends(o', cert, users[1..], host);
    }
  }

  /** The mails planned for a list of recipients, one recipient after the
      other. */
  function Planned(cert: Certificate, users: seq<UserId>, host: Host): seq<Mail> {
    if users == [] then [] else MailsFor(cert, users[0], host) + Planned(cert, users[1..], host)
  }

  /** The recipient loop sends the planned mails in order: a prefix of them,
      and all of them when it is not stopped. */
  lemma {:induction false} EmailRecipientsMails(o: Outcome, cert: Certificate, users: seq<UserId>, host: Host)
    ensures var r := EmailRecipients(o, cert, users, host);
      && r.outbox <= o.outbox + Planned(cert, users, host)
      && (r.completed ==> r.outbox == o.outbox + Planned(cert, users, host))
    decreases |users|
  {
    if users == [] {
      assert o.outbox + [] == o.outbox;
    } else if host.requestDir(o.requests) {
      var ms := MailsFor(cert, users[0], host);
      var rest := Planned(cert, users[1..], host);
      var o' := o.(outbox := o.outbox + ms, requests := o.requests + 1);
      assert EmailRecipients(o, cert, users, host) == EmailRecipients(o', cert, users[1..], host);
      assert Planned(cert, users, host) == ms + rest;
      EmailRecipientsMails(o', cert, users[1..], host);
      Assoc(o.outbox, ms, rest);
    } else {
      assert EmailRecipients(o, cert, users, host).outbox == o.outbox;
    }
  }

  /** Every planned mail is well formed. */
  lemma {:induction false} PlannedWellFormed(cert: Certificate, users: seq<UserId>, host: Host)
    ensures forall m :: m in Planned(cert, users, host) ==> WellFormedMail(m, host)
    decreases |users|
  {
    if users != [] {
      MailsForWellFormed(cert, users[0], host);
      PlannedWellFormed(cert, users[1..], host);
    }
  }

  /** The recipient loop asks for one directory per user until one is
      refused, and stops there. */
  lemma {:induction false} EmailRecipientsFailFast(o: Outcome, cert: Certificate, users: seq<UserId>, host: Host)
    requires o.completed && RequestsGranted(o, host)
    ensures FailFast(EmailRecipients(o, cert, users, host), host)
    decreases |users|
  {
    if users != [] {
      if host.requestDir(o.requests) {
        var o' := o.(outbox := o.outbox + MailsFor(cert, users[0], host), requests := o.requests + 1);
        assert o'.completed && RequestsGranted(o', host);
        EmailRecipientsFailFast(o', cert, users[1..], host);
        assert EmailRecipients(o, cert, users, host) == EmailRecipients(o', cert, users[1..], host);
      } else {
        assert EmailRecipients(o, cert, users, host) == o.(requests := o.requests + 1, completed := false);
      }
    }
  }

  /** Where the recipient loop stops: after mailing every user, or right
      after the directory of user k is refused, having mailed exactly the
      users before k and nobody from k on. */
  lemma {:induction false} EmailRecipientsStop(o: Outcome, cert: Certificate, users: seq<UserId>, host: Host)
    requires o.completed
    ensures var r := EmailRecipients(o, cert, users, host);
      && r.issues == o.issues
      && (r.completed ==> r.requests == o.requests + |users| && r.outbox == o.outbox + Planned(cert, users, host))
      && (!r.completed ==> exists k :: StoppedAt(o, r, cert, users, k, host))
    decreases |users|
  {
    var r := EmailRecipients(o, cert, users, host);
    if users == [] {
      AppendEmpty(o.outbox);
    } else if !host.requestDir(o.requests) {
      assert StoppedAt(o, r, cert, users, 0, host) by {
        assert users[..0] == [];
        AppendEmpty(o.outbox);
      }
    } else {
      var ms := MailsFor(cert, users[0], host);
      var o' := o.(outbox := o.outbox + ms, requests := o.requests + 1);
      assert r == EmailRecipients(o', cert, users[1..], host);
      EmailRecipientsStop(o', cert, users[1..], host);
      if r.completed {
        assert Planned(cert, users, host) == ms + Planned(cert, users[1..], host);
        Assoc(o.outbox, ms, Planned(cert, users[1..], host));
      } else {
        var k :| StoppedAt(o', r, cert, users[1..], k, host);
        StoppedAtStep(o, r, cert, users, k, host);
      }
    }
  }

  /** A stop at user k of the rest, after a first user who was given a
      directory and mailed, is a stop at user k + 1. */
  lemma StoppedAtStep(o: Outcome, r: Outcome, cert: Certificate, users: seq<UserId>, k: int, host: Host)
    requires users != [] && host.requestDir(o.requests)
    requires StoppedAt(o.(outbox := o.outbox + MailsFor(cert, users[0], host), requests := o.requests + 1),
                       r, cert, users[1..], k, host)
    ensures StoppedAt(o, r, cert, users, k + 1, host)
  {
    var ms := MailsFor(cert, users[0], host);
    var before := users[..k + 1];
    assert before[0] == users[0] && before[1..] == users[1..][..k];
    assert Planned(cert, before, host) == ms + Planned(cert, users[1..][..k], host);
    Assoc(o.outbox, ms, Planned(cert, users[1..][..k], host));
  }

  /** `r` is `o` after the recipient loop over `users` was refused the
      directory of user k: the requests before it were given, and exactly
      the users before k were mailed. */
  predicate StoppedAt(o: Outcome, r: Outcome, cert: Certificate, users: seq<UserId>, k: int, host: Host) {
    && 0 <= k < |users|
    && (forall n :: o.requests <= n < o.requests + k ==> host.requestDir(n))
    && !host.requestDir(o.requests + k)
    && r.requests == o.requests + k + 1
    && r.outbox == o.outbox + Planned(cert, users[..k], host)
  }

  // ---------------------------------------------------------------------
  // One certificate

  /** Processing one certificate appends, for each user it issues to, one
      un-emailed row of this certificate; that user is enrolled, sees the
      certificate and held no un-emailed issue of it. */
  lemma ProcessCertificateIssues(o: Outcome, cert: Certificate, host: Host)
    ensures var p := ProcessCertificate(o, cert, host);
      var issued := IssuedUsers(o.issues, cert.id);
      var added := Eligible(host.enrolled(cert.courseid), issued, cert.id, host);
      && Extends(o, p)
      && (!o.completed ==> !p.completed)
      && p.issues == o.issues + IssuesFor(cert.id, added)
      && (forall u :: u in added <==>
            u in host.enrolled(cert.courseid) && !Holds(o.issues, cert.id, u) && host.visible(cert.id, u))
  {
    var issued := IssuedUsers(o.issues, cert.id);
    var added := Eligible(host.enrolled(cert.courseid), issued, cert.id, host);
    var o1 := o.(issues := o.issues + IssuesFor(cert.id, added));
    EligibleMembers(host.enrolled(cert.courseid), issued, cert.id, host);
    if !(issued == [] && added == []) {
      EmailRecipientsExtends(o1, cert, Recipients(issued, added), host);
    }
  }

  /** Processing one certificate sends the mails planned for its recipients
      (the issued users, then the new users whose index is no issued id), a
      prefix of them when a directory is refused, and all of them well
      formed. */
  lemma ProcessCertificateMails(o: Outcome, cert: Certificate, host: Host)
    ensures var p := ProcessCertificate(o, cert, host);
      var issued := IssuedUsers(o.issues, cert.id);
      var added := Eligible(host.enrolled(cert.courseid), issued, cert.id, host);
      var planned := Planned(cert, Recipients(issued, added), host);
      && p.outbox <= o.outbox + planned
      && (p.completed ==> p.outbox == o.outbox + planned)
      && |o.outbox| <= |p.outbox| && forall k :: |o.outbox| <= k < |p.outbox| ==> WellFormedMail(p.outbox[k], host)
  {
    var issued := IssuedUsers(o.issues, cert.id);
    var added := Eligible(host.enrolled(cert.courseid), issued, cert.id, host);
    var o1 := o.(issues := o.issues + IssuesFor(cert.id, added));
    if issued == [] && added == [] {
      assert Recipients(issued, added) == [];
      assert o.outbox + [] == o.outbox;
    } else {
      var users := Recipients(issued, added);
      var planned := Planned(cert, users, host);
      EmailRecipientsMails(o1, cert, users, host);
      PlannedWellFormed(cert, users, host);
      EmailRecipientsExtends(o1, cert, users, host);
      var r := EmailRecipients(o1, cert, users, host);
      assert ProcessCertificate(o, cert, host) == r;
      PrefixTail(o.outbox, planned, r.outbox);
    }
  }

  lemma ProcessCertificateFailFast(o: Outcome, cert: Certificate, host: Host)
    requires o.completed && RequestsGranted(o, host)
    ensures FailFast(ProcessCertificate(o, cert, host), host)
  {
    var issued := IssuedUsers(o.issues, cert.id);
    var added := Eligible(host.enrolled(cert.courseid), issued, cert.id, host);
    var o1 := o.(issues := o.issues + IssuesFor(cert.id, added));
    if !(issued == [] && added == []) {
      EmailRecipientsFailFast(o1, cert, Recipients(issued, added), host);
    }
  }

  /** One certificate of a running task issues to its missing users and then
      either mails all its recipients, or stops right after the refused
      directory of recipient k, having mailed exactly the recipients before
      k. */
  lemma ProcessCertificateStop(o: Outcome, cert: Certificate, host: Host)
    requires o.completed
    ensures var p := ProcessCertificate(o, cert, host);
      var issued := IssuedUsers(o.issues, cert.id);
      var added := Eligible(host.enrolled(cert.courseid), issued, cert.id, host);
      var users := Recipients(issued, added);
      var o1 := o.(issues := o.issues + IssuesFor(cert.id, added));
      && p.issues == o1.issues
      && (p.completed ==> p.requests == o.requests + |users| && p.outbox == o.outbox + Planned(cert, users, host))
      && (!p.completed ==> exists k :: StoppedAt(o1, p, cert, users, k, host))
  {
    var issued := IssuedUsers(o.issues, cert.id);
    var added := Eligible(host.enrolled(cert.courseid), issued, cert.id, host);
    var o1 := o.(issues := o.issues + IssuesFor(cert.id, added));
    if issued == [] && added == [] {
      assert Recipients(issued, added) == [];
      AppendEmpty(o.outbox);
    } else {
      EmailRecipientsStop(o1, cert, Recipients(issued, added), host);
    }
  }

  /** With the first directory request of a certificate refused, it sends
      nothing and, if it has anyone to mail, stops the run. */
  lemma ProcessCertificateRefused(o: Outcome, cert: Certificate, host: Host)
    requires !host.requestDir(o.requests)
    ensures var p := ProcessCertificate(o, cert, host);
      p.outbox == o.outbox && (p.completed ==> p.requests == o.requests)
  {
  }

  /** Appending un-emailed rows for distinct users of whom none held one
      keeps the table free of duplicate un-emailed rows. */
  lemma AppendKeepsNoDuplicate(issues: seq<Issue>, certid: int, users: seq<UserId>)
    requires NoDuplicateUnemailed(issues)
    requires Distinct(users)
    requires forall u :: u in users ==> !Holds(issues, certid, u)
    ensures NoDuplicateUnemailed(issues + IssuesFor(certid, users))
  {
    var added := IssuesFor(certid, users);
    var all := issues + added;
    forall i, j | 0 <= i < j < |all| && all[i].emailed == 0 ensures all[i] != all[j] {
      if j >= |issues| {
        var u := users[j - |issues|];
        assert all[j] == Issue(certid, u, 0);
        assert u in users;
        if i < |issues| {
          assert all[i] == issues[i];
          assert issues[i] in issues;
        } else {
          assert all[i] == Issue(certid, users[i - |issues|], 0);
        }
      }
    }
  }

  // ---------------------------------------------------------------------
  // The whole run

  /** The rows one certificate appends are justified by that certificate. */
  lemma ProcessCertificateJustified(o: Outcome, c: Certificate, host: Host)
    ensures var p := ProcessCertificate(o, c, host);
      forall k :: |o.issues| <= k < |p.issues| ==> IssueJustified(o.issues, p.issues[k], [c], host)
  {
    var added := Eligible(host.enrolled(c.courseid), IssuedUsers(o.issues, c.id), c.id, host);
    var all := o.issues + IssuesFor(c.id, added);
    assert ProcessCertificate(o, c, host).issues == all
      && forall u :: u in added <==> u in host.enrolled(c.courseid) && !Holds(o.issues, c.id, u) && host.visible(c.id, u)
    by {
      ProcessCertificateIssues(o, c, host);
    }
    assert c in [c];
    forall k | |o.issues| <= k < |all| ensures IssueJustified(o.issues, all[k], [c], host) {
      var u := added[k - |o.issues|];
      assert all[k] == IssuesFor(c.id, added)[k - |o.issues|] == Issue(c.id, u, 0);
      assert u in added;
    }
  }

  /** A justification survives a longer initial table being replaced by a
      shorter one and more certificates being allowed. */
  lemma JustifiedWeaken(init: seq<Issue>, init': seq<Issue>, i: Issue, certs: seq<Certificate>,
                        certs': seq<Certificate>, host: Host)
    requires init <= init'
    requires forall c :: c in certs ==> c in certs'
    requires IssueJustified(init', i, certs, host)
    ensures IssueJustified(init, i, certs', host)
  {
    assert forall x :: x in init ==> x in init';
    var c :| c in certs && c.id == i.customcertid && i.userid in host.enrolled(c.courseid) && host.visible(c.id, i.userid);
    assert c in certs';
  }

  /** A run only appends rows and mails, and every row it appends is
      justified: un-emailed, for a user without an un-emailed issue of that
      certificate before, enrolled in and able to see a processed
      certificate carrying that id. */
  lemma {:induction false} RunFromIssues(o: Outcome, certs: seq<Certificate>, host: Host)
    ensures var r := RunFrom(o, certs, host);
      && Extends(o, r)
      && forall k :: |o.issues| <= k < |r.issues| ==> IssueJustified(o.issues, r.issues[k], certs, host)
    decreases |certs|
  {
    if certs != [] {
      var c := certs[0];
      var p := ProcessCertificate(o, c, host);
      ProcessCertificateIssues(o, c, host);
      ProcessCertificateJustified(o, c, host);
      assert forall x :: x in [c] ==> x in certs;
      forall k | |o.issues| <= k < |p.issues| ensures IssueJustified(o.issues, p.issues[k], certs, host) {
        JustifiedWeaken(o.issues, o.issues, p.issues[k], [c], certs, host);
      }
      if p.completed {
        RunFromIssues(p, certs[1..], host);
        var r := RunFrom(p, certs[1..], host);
        assert RunFrom(o, certs, host) == r;
        assert forall x :: x in certs[1..] ==> x in certs;
        forall k | |p.issues| <= k < |r.issues| ensures IssueJustified(o.issues, r.issues[k], certs, host) {
          JustifiedWeaken(o.issues, p.issues, r.issues[k], certs[1..], certs, host);
        }
        forall k | |o.issues| <= k < |p.issues| ensures r.issues[k] == p.issues[k] { }
      }
    }
  }

  /** The rest of a run only appends rows and mails. */
  lemma {:induction false} RunFromExtends(o: Outcome, certs: seq<Certificate>, host: Host)
    ensures Extends(o, RunFrom(o, certs, host))
    decreases |certs|
  {
    if certs != [] {
      var p := ProcessCertificate(o, certs[0], host);
      ProcessCertificateIssues(o, certs[0], host);
      if p.completed {
        RunFromExtends(p, certs[1..], host);
      }
    }
  }

  /** The run inserts rows and never updates or deletes one; each inserted
      row belongs to a certificate the query selects, is un-emailed, and goes
      to an enrolled user who can see that certificate and held no un-emailed
      issue of it when the run began. In particular a user for whom the
      certificate is not visible never receives an issue through it. */
  lemma RunOnlyInsertsJustifiedIssues(issues: seq<Issue>, outbox: seq<Mail>, certs: seq<Certificate>, host: Host)
    ensures var r := Run(issues, outbox, certs, host);
      && issues <= r.issues
      && outbox <= r.outbox
      && forall k :: |issues| <= k < |r.issues| ==>
           var i := r.issues[k];
           && i.emailed == 0
           && !Holds(issues, i.customcertid, i.userid)
           && exists c :: c in certs && Wanted(c) && c.id == i.customcertid
                          && i.userid in host.enrolled(c.courseid) && host.visible(c.id, i.userid)
  {
    var o := Outcome(issues, outbox, 0, true);
    RunFromIssues(o, Selected(certs), host);
    var r := Run(issues, outbox, certs, host);
    forall k | |issues| <= k < |r.issues|
      ensures exists c :: c in certs && Wanted(c) && c.id == r.issues[k].customcertid
                          && r.issues[k].userid in host.enrolled(c.courseid) && host.visible(c.id, r.issues[k].userid)
    {
      var i := r.issues[k];
      assert IssueJustified(issues, i, Selected(certs), host);
      var c :| c in Selected(certs) && c.id == i.customcertid
               && i.userid in host.enrolled(c.courseid) && host.visible(c.id, i.userid);
      assert c in certs && Wanted(c);
    }
  }

  /** A certificate the query does not select gets no new row: with no
      student, teacher or "other" mailing configured under that id, the run
      inserts nothing for it. */
  lemma UnselectedUntouched(issues: seq<Issue>, outbox: seq<Mail>, certs: seq<Certificate>, host: Host, certid: int)
    requires forall c :: c in certs && c.id == certid ==> !Wanted(c)
    ensures var r := Run(issues, outbox, certs, host);
      forall k :: |issues| <= k < |r.issues| ==> r.issues[k].customcertid != certid
  {
    RunOnlyInsertsJustifiedIssues(issues, outbox, certs, host);
  }

  lemma {:induction false} RunFromNoDuplicate(o: Outcome, certs: seq<Certificate>, host: Host)
    requires NoDuplicateUnemailed(o.issues)
    requires forall c :: c in certs ==> Distinct(host.enrolled(c.courseid))
    ensures NoDuplicateUnemailed(RunFrom(o, certs, host).issues)
    decreases |certs|
  {
    if certs != [] {
      var c := certs[0];
      assert c in certs;
      var p := ProcessCertificate(o, c, host);
      ProcessCertificateIssues(o, c, host);
      var issued := IssuedUsers(o.issues, c.id);
      var added := Eligible(host.enrolled(c.courseid), issued, c.id, host);
      EligibleMembers(host.enrolled(c.courseid), issued, c.id, host);
      AppendKeepsNoDuplicate(o.issues, c.id, added);
      if p.completed {
        assert forall c' :: c' in certs[1..] ==> c' in certs;
        RunFromNoDuplicate(p, certs[1..], host);
      }
    }
  }

  /** A run keeps the table free of two un-emailed rows for the same user
      and certificate, provided no course lists a user as enrolled twice. */
  lemma RunKeepsNoDuplicate(issues: seq<Issue>, outbox: seq<Mail>, certs: seq<Certificate>, host: Host)
    requires NoDuplicateUnemailed(issues)
    requires forall c :: c in certs ==> Distinct(host.enrolled(c.courseid))
    ensures NoDuplicateUnemailed(Run(issues, outbox, certs, host).issues)
  {
    RunFromNoDuplicate(Outcome(issues, outbox, 0, true), Selected(certs), host);
  }

  /** Appending the issues of `added` leaves each of them, and everyone
      who held one before, holding an un-emailed issue. */
  lemma IssuingCovers(issues: seq<Issue>, certid: int, added: seq<UserId>, u: UserId)
    requires u in added || Holds(issues, certid, u)
    ensures Holds(issues + IssuesFor(certid, added), certid, u)
  {
    if !Holds(issues, certid, u) {
      var j :| 0 <= j < |added| && added[j] == u;
      assert (issues + IssuesFor(certid, added))[|issues| + j] == Issue(certid, u, 0);
    }
  }

  /** After one certificate, every enrolled user who can see it holds an
      un-emailed issue of it. */
  lemma ProcessCertificateCovers(o: Outcome, c: Certificate, host: Host)
    ensures forall u :: u in host.enrolled(c.courseid) && host.visible(c.id, u) ==>
      Holds(ProcessCertificate(o, c, host).issues, c.id, u)
  {
    ProcessCertificateIssues(o, c, host);
    var added := Eligible(host.enrolled(c.courseid), IssuedUsers(o.issues, c.id), c.id, host);
    forall u | u in host.enrolled(c.courseid) && host.visible(c.id, u)
      ensures Holds(o.issues + IssuesFor(c.id, added), c.id, u)
    {
      IssuingCovers(o.issues, c.id, added, u);
    }
  }

  lemma {:induction false} RunFromIssuesEveryone(o: Outcome, certs: seq<Certificate>, host: Host)
    ensures var r := RunFrom(o, certs, host);
      r.completed ==> forall c, u :: c in certs && u in host.enrolled(c.courseid) && host.visible(c.id, u)
                             ==> Holds(r.issues, c.id, u)
    decreases |certs|
  {
    if certs != [] {
      var c := certs[0];
      var p := ProcessCertificate(o, c, host);
      if p.completed {
        var r := RunFrom(p, certs[1..], host);
        assert RunFrom(o, certs, host) == r;
        if r.completed {
          RunFromIssuesEveryone(p, certs[1..], host);
          RunFromExtends(p, certs[1..], host);
          ProcessCertificateCovers(o, c, host);
          forall c', u | c' in certs && u in host.enrolled(c'.courseid) && host.visible(c'.id, u)
            ensures Holds(r.issues, c'.id, u)
          {
            if c' == c {
              assert Issue(c.id, u, 0) in p.issues;
            } else {
              assert c' in certs[1..];
            }
          }
        }
      }
    }
  }

  /** A run that completes leaves every enrolled user who can see a
      selected certificate holding an un-emailed issue of it. */
  lemma RunIssuesEveryone(issues: seq<Issue>, outbox: seq<Mail>, certs: seq<Certificate>, host: Host)
    ensures var r := Run(issues, outbox, certs, host);
      r.completed ==> forall c, u :: c in certs && Wanted(c) && u in host.enrolled(c.courseid) && host.visible(c.id, u)
                             ==> Holds(r.issues, c.id, u)
  {
    RunFromIssuesEveryone(Outcome(issues, outbox, 0, true), Selected(certs), host);
  }

  lemma {:induction false} RunFromFailFast(o: Outcome, certs: seq<Certificate>, host: Host)
    requires o.completed && RequestsGranted(o, host)
    ensures FailFast(RunFrom(o, certs, host), host)
    decreases |certs|
  {
    if certs != [] {
      var p := ProcessCertificate(o, certs[0], host);
      ProcessCertificateFailFast(o, certs[0], host);
      if p.completed {
        RunFromFailFast(p, certs[1..], host);
      }
    }
  }

  /** `r` is the outcome of the certificate loop over `certs` from `o` that
      aborted in certificate j: the certificates before j all completed, and
      nothing was done after certificate j. */
  predicate AbortedAt(o: Outcome, r: Outcome, certs: seq<Certificate>, j: int, host: Host) {
    && 0 <= j < |certs|
    && RunFrom(o, certs[..j], host).completed
    && r == ProcessCertificate(RunFrom(o, certs[..j], host), certs[j], host)
  }

  /** A loop that stops is stopped by one certificate, after which no
      certificate is processed. */
  lemma {:induction false} RunFromStop(o: Outcome, certs: seq<Certificate>, host: Host)
    requires o.completed
    ensures var r := RunFrom(o, certs, host);
      !r.completed ==> exists j :: AbortedAt(o, r, certs, j, host)
    decreases |certs|
  {
    if certs != [] {
      var p := ProcessCertificate(o, certs[0], host);
      var r := RunFrom(o, certs, host);
      if !p.completed {
        assert AbortedAt(o, r, certs, 0, host) by {
          assert certs[..0] == [];
        }
      } else {
        assert r == RunFrom(p, certs[1..], host);
        RunFromStop(p, certs[1..], host);
        if !r.completed {
          var j :| AbortedAt(p, r, certs[1..], j, host);
          AbortedAtStep(o, r, certs, j, host);
        }
      }
    }
  }

  /** An abort in certificate j of the rest, after a first certificate that
      completed, is an abort in certificate j + 1. */
  lemma AbortedAtStep(o: Outcome, r: Outcome, certs: seq<Certificate>, j: int, host: Host)
    requires certs != [] && ProcessCertificate(o, certs[0], host).completed
    requires AbortedAt(ProcessCertificate(o, certs[0], host), r, certs[1..], j, host)
    ensures AbortedAt(o, r, certs, j + 1, host)
  {
    var p := ProcessCertificate(o, certs[0], host);
    var before := certs[..j + 1];
    assert before[0] == certs[0] && before[1..] == certs[1..][..j];
    assert RunFrom(o, before, host) == RunFrom(p, certs[1..][..j], host);
  }

  /** The run stops at the first directory request that is refused: it
      returns false exactly then and asks for no directory after it; the
      certificate it stops in is the last one processed, and within it no
      recipient from the refused one on is mailed (`ProcessCertificateStop`);
      a run given every directory completes. */
  lemma RunFailFast(issues: seq<Issue>, outbox: seq<Mail>, certs: seq<Certificate>, host: Host)
    ensures FailFast(Run(issues, outbox, certs, host), host)
    ensures (forall n: nat :: host.requestDir(n)) ==> Run(issues, outbox, certs, host).completed
    ensures var r := Run(issues, outbox, certs, host);
      !r.completed ==> exists j :: AbortedAt(Outcome(issues, outbox, 0, true), r, Selected(certs), j, host)
  {
    RunFromFailFast(Outcome(issues, outbox, 0, true), Selected(certs), host);
    RunFromStop(Outcome(issues, outbox, 0, true), Selected(certs), host);
  }

  lemma {:induction false} RunFromRefused(o: Outcome, certs: seq<Certificate>, host: Host)
    requires !host.requestDir(o.requests)
    ensures RunFrom(o, certs, host).outbox == o.outbox
    decreases |certs|
  {
    if certs != [] {
      var p := ProcessCertificate(o, certs[0], host);
      ProcessCertificateRefused(o, certs[0], host);
      if p.completed {
        RunFromRefused(p, certs[1..], host);
      }
    }
  }

  /** A run refused its very first request directory sends no mail. */
  lemma RunWithoutDirectorySendsNothing(issues: seq<Issue>, outbox: seq<Mail>, certs: seq<Certificate>, host: Host)
    requires !host.requestDir(0)
    ensures Run(issues, outbox, certs, host).outbox == outbox
  {
    RunFromRefused(Outcome(issues, outbox, 0, true), Selected(certs), host);
  }

  lemma {:induction false} RunFromMails(o: Outcome, certs: seq<Certificate>, host: Host)
    ensures var r := RunFrom(o, certs, host);
      |o.outbox| <= |r.outbox| && forall k :: |o.outbox| <= k < |r.outbox| ==> WellFormedMail(r.outbox[k], host)
    decreases |certs|
  {
    if certs != [] {
      var p := ProcessCertificate(o, certs[0], host);
      ProcessCertificateMails(o, certs[0], host);
      ProcessCertificateIssues(o, certs[0], host);
      if p.completed {
        RunFromMails(p, certs[1..], host);
        RunFromExtends(p, certs[1..], host);
        var r := RunFrom(p, certs[1..], host);
        forall k | |o.outbox| <= k < |p.outbox| ensures r.outbox[k] == p.outbox[k] { }
      }
    }
  }

  /** Every mail a run sends carries an attachment name with no "&" and no
      trailing ".", and no malformed or untrimmed "other" address is ever
      mailed. */
  lemma RunSendsWellFormedMails(issues: seq<Issue>, outbox: seq<Mail>, certs: seq<Certificate>, host: Host)
    ensures var r := Run(issues, outbox, certs, host);
      forall k :: |outbox| <= k < |r.outbox| ==> WellFormedMail(r.outbox[k], host)
  {
    RunFromMails(Outcome(issues, outbox, 0, true), Selected(certs), host);
  }

  // ---------------------------------------------------------------------
  // The scenarios of the task's unit tests

  /** The rows one certificate adds, and nothing about its mails. */
  lemma ProcessCertificateRows(o: Outcome, c: Certificate, host: Host)
    ensures ProcessCertificate(o, c, host).issues
         == o.issues + IssuesFor(c.id, Eligible(host.enrolled(c.courseid), IssuedUsers(o.issues, c.id), c.id, host))
  {
    var issued := IssuedUsers(o.issues, c.id);
    var added := Eligible(host.enrolled(c.courseid), issued, c.id, host);
    var o1 := o.(issues := o.issues + IssuesFor(c.id, added));
    if !(issued == [] && added == []) {
      EmailRecipientsExtends(o1, c, Recipients(issued, added), host);
    }
  }

  /** Two students `a` and `b` enrolled, `a` already issued and `b` able to
      see the certificate: after the run the table holds two rows, the old
      one and one for `b`, whatever the teachers, addresses and directories. */
  lemma StudentsScenario(host: Host, a: UserId, b: UserId)
    requires a != b
    requires host.enrolled(10) == [a, b] && host.visible(1, b)
    ensures var cert := Certificate(1, 10, 20, "Certificate", "Course", 1, 0, "");
      var r := Run([Issue(1, a, 0)], [], [cert], host);
      r.issues == [Issue(1, a, 0), Issue(1, b, 0)] && |r.issues| == 2
  {
    var cert := Certificate(1, 10, 20, "Certificate", "Course", 1, 0, "");
    var o := Outcome([Issue(1, a, 0)], [], 0, true);
    var p := ProcessCertificate(o, cert, host);
    assert p.issues == [Issue(1, a, 0), Issue(1, b, 0)] by {
      IssuedUsersSingle(Issue(1, a, 0));
      EligibleSecond(a, b, [a], 1, host);
      ProcessCertificateRows(o, cert, host);
      assert IssuesFor(1, [b]) == [Issue(1, b, 0)];
    }
    assert Run([Issue(1, a, 0)], [], [cert], host) == p by {
      assert Selected([cert]) == [cert];
      assert RunFrom(o, [cert], host) == p;
    }
  }

  /** A table of one un-emailed row lists its user. */
  lemma IssuedUsersSingle(i: Issue)
    requires i.emailed == 0
    ensures IssuedUsers([i], i.customcertid) == [i.userid]
  {
    assert [i][..0] == [];
  }

  /** Of two enrolled users, the first already issued and the second able
      to see the certificate, only the second is issued to. */
  lemma EligibleSecond(a: UserId, b: UserId, issued: seq<UserId>, certid: int, host: Host)
    requires a in issued && b !in issued && host.visible(certid, b)
    ensures Eligible([a, b], issued, certid, host) == [b]
  {
    assert [a, b][0] == a && [a, b][1..] == [b];
    assert [b][1..] == [];
    assert Eligible([b], issued, certid, host) == [b] + Eligible([], issued, certid, host);
    assert Eligible([a, b], issued, certid, host) == [] + Eligible([b], issued, certid, host);
  }

  /** One student enrolled who cannot see the certificate: no row is added,
      no mail is sent and the run completes. */
  lemma NotVisibleScenario(host: Host, a: UserId)
    requires host.enrolled(10) == [a] && !host.visible(1, a)
    ensures var cert := Certificate(1, 10, 20, "Certificate", "Course", 1, 0, "");
      Run([], [], [cert], host) == Outcome([], [], 0, true)
  {
    var cert := Certificate(1, 10, 20, "Certificate", "Course", 1, 0, "");
    var o := Outcome([], [], 0, true);
    assert Selected([cert]) == [cert];
    assert Eligible([a], [], 1, host) == [] by {
      assert [a][1..] == [];
    }
    assert ProcessCertificate(o, cert, host) == o;
  }
}

/** The email renderable of classes/output/email_certificate.php: the kind of
    notification plus three display strings, and the record it hands to the
    mustache templates. */
module EmailCertificateOutput {

  /** The three notification kinds, as the integer constants of the source. */
  const EMAIL_TYPE_STUDENT: int := 1
  const EMAIL_TYPE_TEACHER: int := 2
  const EMAIL_TYPE_OTHER: int := 3

  /** What `export_for_template` returns: one flag per kind and the strings. */
  datatype TemplateData = TemplateData(
    isstudent: bool,
    isteacher: bool,
    isother: bool,
    userfullname: string,
    coursefullname: string,
    certificatename: string)

  /** The kind a template record announces, read back from its flags. */
  function KindOf(d: TemplateData): int {
    if d.isstudent then EMAIL_TYPE_STUDENT
    else if d.isteacher then EMAIL_TYPE_TEACHER
    else EMAIL_TYPE_OTHER
  }

  class EmailCertificate {
    var emailtype: int
    var userfullname: string
    var coursefullname: string
    var certificatename: string

    constructor (emailtype: int, userfullname: string, coursefullname: string, certificatename: string)
      ensures this.emailtype == emailtype
      ensures this.userfullname == userfullname
      ensures this.coursefullname == coursefullname
      ensures this.certificatename == certificatename
    {
      this.emailtype := emailtype;
      this.userfullname := userfullname;
      this.coursefullname := coursefullname;
      this.certificatename := certificatename;
    }

    /** The template context: exactly one of the three flags is set, chosen by
        the kind (any kind other than student or teacher counts as "other"),
        and the three strings are passed through unchanged. Being a function,
        it leaves the object's fields as they were. */
    function ExportForTemplate(): (d: TemplateData)
      reads this
      ensures d.isstudent <==> emailtype == EMAIL_TYPE_STUDENT
      ensures d.isteacher <==> emailtype == EMAIL_TYPE_TEACHER
      ensures d.isother <==> emailtype != EMAIL_TYPE_STUDENT && emailtype != EMAIL_TYPE_TEACHER
      ensures (d.isstudent && !d.isteacher && !d.isother)
           || (!d.isstudent && d.isteacher && !d.isother)
           || (!d.isstudent && !d.isteacher && d.isother)
      ensures d.userfullname == userfullname
      ensures d.coursefullname == coursefullname
      ensures d.certificatename == certificatename
    {
      var data := TemplateData(false, false, false, userfullname, coursefullname, certificatename);
      if emailtype == EMAIL_TYPE_STUDENT then data.(isstudent := true)
      else if emailtype == EMAIL_TYPE_TEACHER then data.(isteacher := true)
      else data.(isother := true)
    }
  }

  /** The three kind constants are distinct. */
  lemma TypeConstantsDistinct()
    ensures EMAIL_TYPE_STUDENT != EMAIL_TYPE_TEACHER
    ensures EMAIL_TYPE_STUDENT != EMAIL_TYPE_OTHER
    ensures EMAIL_TYPE_TEACHER != EMAIL_TYPE_OTHER
  {
  }

  /** Reading the kind back from the exported flags recovers each of the three
      kinds, and maps every out-of-range kind to "other". */
  lemma ExportRecoversKind(e: EmailCertificate)
    ensures KindOf(e.ExportForTemplate())
         == if e.emailtype == EMAIL_TYPE_STUDENT || e.emailtype == EMAIL_TYPE_TEACHER
            then e.emailtype else EMAIL_TYPE_OTHER
  {
  }
}

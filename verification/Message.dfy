/**
  The header section, the text part and the attachment header that main of
  cpp/email_with_curl/main.cpp queues, for any texts.
*/
module Message {
  import opened Base64
  import opened Mail
  import opened Attachment

  // The texts of a message.  Sender and recipient are one contact in main.
  datatype Letter = Letter(name: string, email: string, subject: string, date: string, boundary: string,
                           text: string, fileName: string)

  // A character of a char string, which has none above 255.
  function CharByte(c: char): Byte {
    if c as int < 256 then Byte(c as int as bv8) else Byte(63)
  }

  function Chars(s: string): (r: seq<Byte>)
    ensures |r| == |s| && forall i :: 0 <= i < |s| ==> r[i] == CharByte(s[i])
  {
    seq(|s|, i requires 0 <= i < |s| => CharByte(s[i]))
  }

  const DASH := Byte(45)

  // The byte is the one with the code of the character.
  lemma CharByteMeans(c: char, b: Byte)
    requires b.bits as int == c as int
    ensures CharByte(c) == b
  {
  }

  // ----------------------------------------------------------- the header

  function Field(key: string, value: string): seq<Byte> {
    Chars(key) + [Byte(58), Byte(32)] + Chars(value)
  }

  function Contact(l: Letter): string {
    l.name + " <" + l.email + ">"
  }

  // The lines queued before the attachment, without their line ends.
  function TopTexts(l: Letter): seq<seq<Byte>> {
    [Field("To", Contact(l)), Field("From", Contact(l)), Field("Subject", l.subject),
     Field("Date", l.date), Field("MIME-Version", "1.0"),
     Field("Content-Type", "multipart/mixed; boundary=\"" + l.boundary + "\""), []]
  }

  function TextPartFields(l: Letter): seq<seq<Byte>> {
    [Field("Content-Type", "text/html; charset=\"ISO-8859-1\""), Field("Content-Transfer-Encoding", "7bit"), []]
  }

  function AttachmentFields(l: Letter): seq<seq<Byte>> {
    [Field("Content-Type", "image/pdf; name=\"" + l.fileName + "\""),
     Field("Content-Transfer-Encoding", "base64"),
     Field("Content-Disposition", "attachment; filename=\"" + l.fileName + "\""), []]
  }

  function Delimiter(l: Letter): seq<Byte> {
    Chars("--" + l.boundary)
  }

  function TextPartTexts(l: Letter): seq<seq<Byte>> {
    [Delimiter(l)] + TextPartFields(l) + [Chars(l.text), [], []]
  }

  function AttachmentTexts(l: Letter): seq<seq<Byte>> {
    [Delimiter(l)] + AttachmentFields(l)
  }

  // Everything queued before the attachment.
  function Head(l: Letter): seq<seq<Byte>> {
    Lines(TopTexts(l)) + Lines(TextPartTexts(l)) + Lines(AttachmentTexts(l))
  }

  function Closing(l: Letter): seq<Byte> {
    Chars("--" + l.boundary + "--")
  }

  lemma EmptyLine()
    ensures [] + CRLF == CRLF
  {
  }

  method AddTop(ce: CurlEmail, l: Letter)
    modifies ce
    ensures ce.mailContent == old(ce.mailContent) + Lines(TopTexts(l))
  {
    ce.AddField(Chars("To"), Chars(Contact(l)));
    ce.AddField(Chars("From"), Chars(Contact(l)));
    ce.AddField(Chars("Subject"), Chars(l.subject));
    ce.AddField(Chars("Date"), Chars(l.date));
    ce.AddField(Chars("MIME-Version"), Chars("1.0"));
    ce.AddField(Chars("Content-Type"), Chars("multipart/mixed; boundary=\"" + l.boundary + "\""));
    ce.AddEmptyField();
    EmptyLine();
  }

  method AddTextPart(ce: CurlEmail, l: Letter)
    modifies ce
    ensures ce.mailContent == old(ce.mailContent) + Lines(TextPartTexts(l))
  {
    ce.AddData(Chars("--" + l.boundary));
    ce.AddField(Chars("Content-Type"), Chars("text/html; charset=\"ISO-8859-1\""));
    ce.AddField(Chars("Content-Transfer-Encoding"), Chars("7bit"));
    ce.AddEmptyField();
    ce.AddData(Chars(l.text));
    ce.AddEmptyField();
    ce.AddEmptyField();
    EmptyLine();
  }

  method AddAttachmentHead(ce: CurlEmail, l: Letter)
    modifies ce
    ensures ce.mailContent == old(ce.mailContent) + Lines(AttachmentTexts(l))
  {
    ce.AddData(Chars("--" + l.boundary));
    ce.AddField(Chars("Content-Type"), Chars("image/pdf; name=\"" + l.fileName + "\""));
    ce.AddField(Chars("Content-Transfer-Encoding"), Chars("base64"));
    ce.AddField(Chars("Content-Disposition"), Chars("attachment; filename=\"" + l.fileName + "\""));
    ce.AddEmptyField();
    EmptyLine();
  }

  method NewMessage(l: Letter) returns (ce: CurlEmail)
    ensures fresh(ce) && ce.mailContent == Head(l)
  {
    ce := new CurlEmail();
    AddTop(ce, l);
    AddTextPart(ce, l);
    AddAttachmentHead(ce, l);
  }

  // ------------------------------------------------ what the header may hold

  ghost predicate Plain(s: string) {
    '\0' !in s
  }

  ghost predicate PlainLetter(l: Letter) {
    && Plain(l.name) && Plain(l.email) && Plain(l.subject) && Plain(l.date)
    && Plain(l.boundary) && Plain(l.text) && Plain(l.fileName)
  }

  lemma CharByteNotNul(c: char)
    requires c != '\0'
    ensures CharByte(c) != NUL
  {
  }

  lemma CharsArePlain(s: string)
    requires Plain(s)
    ensures NUL !in Chars(s)
  {
    forall i | 0 <= i < |s|
      ensures Chars(s)[i] != NUL
    {
      CharByteNotNul(s[i]);
    }
  }

  // The names and constant values of main's fields.
  ghost predicate Constant(s: string) {
    '\0' !in s && '\r' !in s
  }

  ghost predicate Key(s: string) {
    Constant(s) && s != "" && s[0] != '-'
  }

  lemma TopKeys()
    ensures Key("To") && Key("From") && Key("Subject") && Key("Date") && Key("MIME-Version")
  {
  }

  lemma ContentKeys()
    ensures Key("Content-Type") && Key("Content-Transfer-Encoding") && Key("Content-Disposition")
  {
  }

  lemma ShortValues()
    ensures Constant("1.0") && Constant("7bit") && Constant("base64")
  {
  }

  lemma TextTypeValue()
    ensures Constant("text/html; charset=\"ISO-8859-1\"")
  {
  }

  lemma BoundaryValue()
    ensures Constant("multipart/mixed; boundary=\"")
  {
  }

  lemma FileNameValues()
    ensures Constant("image/pdf; name=\"") && Constant("attachment; filename=\"")
  {
  }

  lemma FieldIsPlain(key: string, value: string)
    requires Key(key) && Plain(value)
    ensures NUL !in Field(key, value)
  {
    CharsArePlain(key);
    CharsArePlain(value);
  }

  lemma QuotedIsPlain(key: string, before: string, s: string)
    requires Key(key) && Constant(before) && Plain(s)
    ensures NUL !in Field(key, before + s + "\"")
  {
    assert Plain(before + s);
    FieldIsPlain(key, before + s + "\"");
  }

  // No line holds c.
  ghost predicate Lacks(lines: seq<seq<Byte>>, c: Byte) {
    forall i :: 0 <= i < |lines| ==> c !in lines[i]
  }

  ghost predicate PlainLines(lines: seq<seq<Byte>>) {
    forall i :: 0 <= i < |lines| ==> lines[i] != [] && NUL !in lines[i]
  }

  lemma LinesArePlain(texts: seq<seq<Byte>>)
    requires Lacks(texts, NUL)
    ensures PlainLines(Lines(texts))
  {
  }

  lemma TopIsPlain(l: Letter)
    requires PlainLetter(l)
    ensures Lacks(TopTexts(l), NUL)
  {
    TopKeys();
    ContentKeys();
    ShortValues();
    BoundaryValue();
    FieldIsPlain("To", Contact(l));
    FieldIsPlain("From", Contact(l));
    FieldIsPlain("Subject", l.subject);
    FieldIsPlain("Date", l.date);
    FieldIsPlain("MIME-Version", "1.0");
    QuotedIsPlain("Content-Type", "multipart/mixed; boundary=\"", l.boundary);
  }

  lemma TextPartIsPlain(l: Letter)
    requires PlainLetter(l)
    ensures Lacks(TextPartTexts(l), NUL)
  {
    ContentKeys();
    ShortValues();
    TextTypeValue();
    CharsArePlain("--" + l.boundary);
    FieldIsPlain("Content-Type", "text/html; charset=\"ISO-8859-1\"");
    FieldIsPlain("Content-Transfer-Encoding", "7bit");
    CharsArePlain(l.text);
  }

  lemma AttachmentHeadIsPlain(l: Letter)
    requires PlainLetter(l)
    ensures Lacks(AttachmentTexts(l), NUL)
  {
    ContentKeys();
    ShortValues();
    FileNameValues();
    CharsArePlain("--" + l.boundary);
    QuotedIsPlain("Content-Type", "image/pdf; name=\"", l.fileName);
    FieldIsPlain("Content-Transfer-Encoding", "base64");
    QuotedIsPlain("Content-Disposition", "attachment; filename=\"", l.fileName);
  }

  lemma PlainConcat(a: seq<seq<Byte>>, b: seq<seq<Byte>>)
    requires PlainLines(a) && PlainLines(b)
    ensures PlainLines(a + b)
  {
  }

  lemma HeadIsPlain(l: Letter)
    requires PlainLetter(l)
    ensures PlainLines(Head(l))
  {
    TopIsPlain(l);
    TextPartIsPlain(l);
    AttachmentHeadIsPlain(l);
    LinesArePlain(TopTexts(l));
    LinesArePlain(TextPartTexts(l));
    LinesArePlain(AttachmentTexts(l));
    PlainConcat(Lines(TopTexts(l)), Lines(TextPartTexts(l)));
    PlainConcat(Lines(TopTexts(l)) + Lines(TextPartTexts(l)), Lines(AttachmentTexts(l)));
  }

  lemma ClosingIsPlain(l: Letter)
    requires PlainLetter(l)
    ensures NUL !in Closing(l) && Closing(l) != [] && Closing(l)[0] == DASH
  {
    CharsArePlain("--" + l.boundary + "--");
  }
}

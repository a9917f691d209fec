/**
  What a mail reader finds in a message that main of cpp/email_with_curl/main.cpp has
  sent, when it is given the bytes and nothing else.  Every text of the message is
  written out here once more.
*/
module MailReader {
  import opened Base64
  import opened Base64Laws
  import opened Mail
  import opened Attachment
  import opened Message
  import opened Receiver
  import opened Delivery
  import opened MachineInt
  import opened Options

  const QUOTE := Byte(34)

  // Looks the boundary up in the header of the message, up to its closing quote, cuts the
  // lines there, and decodes the second part if its header says that it is Base64.
  function ReadAttachment(stream: seq<Byte>): Option<seq<Byte>> {
    var lines := Split(stream);
    match ValueOf(HeaderOf(lines), Chars("Content-Type: multipart/mixed; boundary=\""))
    case None => None
    case Some(rest) =>
      var parts := Parts(lines, Chars("--") + UpTo(rest, QUOTE));
      if |parts| < 3 || Chars("Content-Transfer-Encoding: base64") !in HeaderOf(parts[2]) then None
      else Some(Decode(Flatten(BodyOf(parts[2]))))
  }

  // ------------------------------------------------------- fields, written out

  lemma CharsConcat(a: string, b: string)
    ensures Chars(a + b) == Chars(a) + Chars(b)
  {
  }

  lemma Separator()
    ensures Chars(": ") == [Byte(58), Byte(32)]
  {
  }

  lemma FieldIsChars(key: string, value: string)
    ensures Field(key, value) == Chars(key + ": " + value)
  {
    Separator();
    CharsConcat(key + ": ", value);
    CharsConcat(key, ": ");
  }

  lemma TopKeysWritten()
    ensures "To" + ": " == "To: " && "From" + ": " == "From: " && "Subject" + ": " == "Subject: "
    ensures "Date" + ": " == "Date: " && "MIME-Version" + ": " + "1.0" == "MIME-Version: 1.0"
  {
  }

  // The lines of the header of the message.
  lemma TopWritten(l: Letter)
    ensures |TopTexts(l)| == 7 && TopTexts(l)[6] == []
    ensures TopTexts(l)[0] == Chars("To: " + (l.name + " <" + l.email + ">"))
    ensures TopTexts(l)[1] == Chars("From: " + (l.name + " <" + l.email + ">"))
    ensures TopTexts(l)[2] == Chars("Subject: " + l.subject)
    ensures TopTexts(l)[3] == Chars("Date: " + l.date)
    ensures TopTexts(l)[4] == Chars("MIME-Version: 1.0")
  {
    TopKeysWritten();
    FieldIsChars("To", l.name + " <" + l.email + ">");
    FieldIsChars("From", l.name + " <" + l.email + ">");
    FieldIsChars("Subject", l.subject);
    FieldIsChars("Date", l.date);
    FieldIsChars("MIME-Version", "1.0");
  }

  lemma BoundaryWritten(l: Letter)
    ensures TopTexts(l)[5] == Chars("Content-Type: multipart/mixed; boundary=\"" + l.boundary + "\"")
  {
    FieldIsChars("Content-Type", "multipart/mixed; boundary=\"" + l.boundary + "\"");
    Prefixed("Content-Type: ", "multipart/mixed; boundary=\"", l.boundary, "\"");
    assert "Content-Type" + ": " == "Content-Type: ";
    assert "Content-Type: " + "multipart/mixed; boundary=\"" == "Content-Type: multipart/mixed; boundary=\"";
  }

  lemma Prefixed(a: string, b: string, c: string, d: string)
    ensures a + (b + c + d) == (a + b) + c + d
  {
  }

  // The lines of the text part, and of the header of the attachment.
  lemma TextPartWritten(l: Letter)
    ensures TextPart(l) == TextPartFields(l) + Split(Chars(l.text)) + [[], []]
    ensures |TextPartFields(l)| == 3 && TextPartFields(l)[2] == []
    ensures TextPartFields(l)[0] == Chars("Content-Type: text/html; charset=\"ISO-8859-1\"")
  {
    FieldIsChars("Content-Type", "text/html; charset=\"ISO-8859-1\"");
    TextTypeWritten();
  }

  lemma TextTypeWritten()
    ensures "Content-Type" + ": " + "text/html; charset=\"ISO-8859-1\"" ==
            "Content-Type: text/html; charset=\"ISO-8859-1\""
  {
    assert "Content-Type" + ": " == "Content-Type: ";
  }

  lemma TextEncodingWritten(l: Letter)
    ensures |TextPartFields(l)| == 3 && TextPartFields(l)[1] == Chars("Content-Transfer-Encoding: 7bit")
  {
    FieldIsChars("Content-Transfer-Encoding", "7bit");
    assert "Content-Transfer-Encoding" + ": " + "7bit" == "Content-Transfer-Encoding: 7bit";
  }

  lemma EncodingWritten(l: Letter)
    ensures |AttachmentFields(l)| == 4 && AttachmentFields(l)[3] == []
    ensures AttachmentFields(l)[1] == Chars("Content-Transfer-Encoding: base64")
  {
    FieldIsChars("Content-Transfer-Encoding", "base64");
    assert "Content-Transfer-Encoding" + ": " + "base64" == "Content-Transfer-Encoding: base64";
  }

  lemma FileNameWritten(l: Letter)
    ensures AttachmentFields(l)[0] == Chars("Content-Type: image/pdf; name=\"" + l.fileName + "\"")
    ensures AttachmentFields(l)[2] == Chars("Content-Disposition: attachment; filename=\"" + l.fileName + "\"")
  {
    FieldIsChars("Content-Type", "image/pdf; name=\"" + l.fileName + "\"");
    FieldIsChars("Content-Disposition", "attachment; filename=\"" + l.fileName + "\"");
    Prefixed("Content-Type: ", "image/pdf; name=\"", l.fileName, "\"");
    Prefixed("Content-Disposition: ", "attachment; filename=\"", l.fileName, "\"");
    assert "Content-Type" + ": " == "Content-Type: " && "Content-Disposition" + ": " == "Content-Disposition: ";
    assert "Content-Type: " + "image/pdf; name=\"" == "Content-Type: image/pdf; name=\"";
    assert "Content-Disposition: " + "attachment; filename=\"" == "Content-Disposition: attachment; filename=\"";
  }

  // ------------------------------------------------------ finding the boundary

  lemma {:induction false} HeaderBefore(fields: seq<seq<Byte>>, rest: seq<seq<Byte>>)
    requires forall i :: 0 <= i < |fields| ==> fields[i] != []
    ensures HeaderOf(fields + ([[]] + rest)) == fields
  {
    var s := fields + ([[]] + rest);
    if fields == [] {
      assert s == [[]] + rest;
    } else {
      HeaderBefore(fields[1..], rest);
      assert s[1..] == fields[1..] + ([[]] + rest) && s[0] == fields[0];
    }
  }

  lemma {:induction false} ValueAt(lines: seq<seq<Byte>>, key: seq<Byte>, k: nat)
    requires k < |lines| && StartsWith(lines[k], key)
    requires forall i :: 0 <= i < k ==> !StartsWith(lines[i], key)
    ensures ValueOf(lines, key) == Some(lines[k][|key|..])
  {
    if k == 0 {
    } else {
      ValueAt(lines[1..], key, k - 1);
    }
  }

  // A field with another first letter.
  lemma OtherKey(key: string, value: string, wanted: seq<Byte>)
    requires key != "" && wanted != [] && CharByte(key[0]) != wanted[0]
    ensures !StartsWith(Field(key, value), wanted)
  {
    var line := Field(key, value);
    assert line[0] == CharByte(key[0]);
    assert |wanted| <= |line| ==> line[..|wanted|][0] == line[0];
  }

  lemma FirstLetters()
    ensures CharByte('T') != CharByte('C') && CharByte('F') != CharByte('C') && CharByte('S') != CharByte('C')
    ensures CharByte('D') != CharByte('C') && CharByte('M') != CharByte('C')
  {
    CharByteMeans('T', Byte(84));
    CharByteMeans('F', Byte(70));
    CharByteMeans('S', Byte(83));
    CharByteMeans('D', Byte(68));
    CharByteMeans('M', Byte(77));
    CharByteMeans('C', Byte(67));
  }

  lemma OtherKeys(l: Letter, key: seq<Byte>)
    requires key != [] && key[0] == CharByte('C')
    ensures forall i :: 0 <= i < 5 ==> !StartsWith(TopTexts(l)[i], key)
  {
    FirstLetters();
    OtherKey("To", Contact(l), key);
    OtherKey("From", Contact(l), key);
    OtherKey("Subject", l.subject, key);
    OtherKey("Date", l.date, key);
    OtherKey("MIME-Version", "1.0", key);
  }

  // The line that announces the boundary, and the value it gives.
  lemma BoundaryLine(l: Letter)
    ensures var key := Chars("Content-Type: multipart/mixed; boundary=\"");
            key != [] && key[0] == CharByte('C') && TopTexts(l)[5] == key + (Chars(l.boundary) + [QUOTE])
  {
    var s := "Content-Type: multipart/mixed; boundary=\"";
    BoundaryWritten(l);
    CharsConcat(s + l.boundary, "\"");
    CharsConcat(s, l.boundary);
    CharByteMeans('\"', QUOTE);
    assert Chars("\"") == [QUOTE];
    BoundaryKey();
    Assoc(Chars(s), Chars(l.boundary), [QUOTE]);
  }

  lemma BoundaryKey()
    ensures "Content-Type: multipart/mixed; boundary=\""[0] == 'C'
  {
    assert "Content-Type: multipart/mixed; boundary=\"" == "Content-Type: " + "multipart/mixed; boundary=\"";
  }

  lemma BoundaryFound(l: Letter, rest: seq<seq<Byte>>, key: seq<Byte>)
    requires FieldsAreLines(l) && key != [] && key[0] == CharByte('C')
    requires TopTexts(l)[5] == key + (Chars(l.boundary) + [QUOTE])
    ensures HeaderOf(TopTexts(l) + rest) == TopTexts(l)[..6]
    ensures ValueOf(TopTexts(l)[..6], key) == Some(Chars(l.boundary) + [QUOTE])
  {
    var fields := TopTexts(l)[..6];
    TopIsFields(l);
    assert TopTexts(l) + rest == fields + ([[]] + rest);
    HeaderBefore(fields, rest);
    OtherKeys(l, key);
    ValueAt(fields, key, 5);
  }

  lemma TopIsFields(l: Letter)
    ensures |TopTexts(l)| == 7 && TopTexts(l)[6] == [] && forall i :: 0 <= i < 6 ==> TopTexts(l)[i] != []
  {
  }

  // How the delimiter lines of the message start, as its header announces it.
  function Announced(l: Letter): seq<Byte> {
    Chars("--") + UpTo(Chars(l.boundary), QUOTE)
  }

  lemma AnnouncedBoundary(l: Letter)
    ensures Chars("--") + UpTo(Chars(l.boundary) + [QUOTE], QUOTE) == Announced(l)
    ensures '\"' !in l.boundary ==> Announced(l) == Chars("--" + l.boundary)
  {
    var b := Chars(l.boundary);
    if QUOTE in b {
      UpToInside(b, QUOTE, [QUOTE]);
    } else {
      UpToFirst(b, QUOTE, [QUOTE]);
      UpToAll(b, QUOTE);
    }
    CharsConcat("--", l.boundary);
    if '\"' !in l.boundary {
      QuoteInChars(l.boundary);
    }
  }

  lemma AnnouncedCuts(l: Letter)
    ensures Cuts(l, Announced(l))
  {
    var b, dashes := Chars(l.boundary), Chars("--");
    UpToPrefix(b, QUOTE);
    CharsConcat("--", l.boundary);
    CharsConcat("--" + l.boundary, "--");
    Dashes();
    PrefixStarts(dashes, b, |UpTo(b, QUOTE)|, []);
    PrefixStarts(dashes, b, |UpTo(b, QUOTE)|, dashes);
    assert dashes + b + [] == dashes + b;
  }

  lemma Dashes()
    ensures Chars("--") == [DASH, DASH]
  {
  }

  lemma PrefixStarts(a: seq<Byte>, b: seq<Byte>, n: nat, c: seq<Byte>)
    requires n <= |b|
    ensures StartsWith(a + b + c, a + b[..n])
  {
  }

  lemma QuoteInChars(s: string)
    requires '\"' !in s
    ensures QUOTE !in Chars(s) && UpTo(Chars(s), QUOTE) == Chars(s)
  {
    forall i | 0 <= i < |s|
      ensures CharByte(s[i]) != QUOTE
    {
      NotQuote(s[i]);
    }
    UpToPrefix(Chars(s), QUOTE);
    UpToAll(Chars(s), QUOTE);
  }

  lemma NotQuote(c: char)
    requires c != '\"'
    ensures CharByte(c) != QUOTE
  {
  }

  lemma {:induction false} UpToAll(a: seq<Byte>, c: Byte)
    requires c !in a
    ensures UpTo(a, c) == a
  {
    if a == [] {
    } else {
      UpToAll(a[1..], c);
      assert [a[0]] + a[1..] == a;
    }
  }

  // ----------------------------------------------------------- reading the stream

  // The reader finds the parts that main means exactly when no line of the text starts
  // like the delimiter that the header announces, and then the file.
  lemma AttachmentRead(l: Letter, file: seq<Byte>, pieces: seq<seq<Byte>>, stream: seq<Byte>)
    requires FieldsAreLines(l) && Flatten(pieces) == Encode(file)
    requires stream == Flatten(Head(l)) + Flatten(Lines(pieces)) + Closing(l) + CRLF
    ensures |Split(stream)| > 7 && Split(stream)[..7] == TopTexts(l)
    ensures Parts(Split(stream), Announced(l)) == MessageParts(l, pieces)
       <==> NoDelimiter(Split(Chars(l.text)), Announced(l))
    ensures NoDelimiter(Split(Chars(l.text)), Announced(l)) ==> ReadAttachment(stream) == Some(file)
  {
    var key := Chars("Content-Type: multipart/mixed; boundary=\"");
    var rest := StreamLines(l, file, pieces, stream);
    BoundaryLine(l);
    BoundaryFound(l, rest, key);
    AnnouncedBoundary(l);
    AnnouncedCuts(l);
    AttachmentFound(l, file, pieces, stream, Announced(l));
    EncodingFound(l, pieces);
    BodyOfAttachment(l, pieces);
    DecodeEncode(file);
  }

  lemma StreamLines(l: Letter, file: seq<Byte>, pieces: seq<seq<Byte>>, stream: seq<Byte>)
    returns (rest: seq<seq<Byte>>)
    requires FieldsAreLines(l) && Flatten(pieces) == Encode(file)
    requires stream == Flatten(Head(l)) + Flatten(Lines(pieces)) + Closing(l) + CRLF
    ensures Split(stream) == TopTexts(l) + rest && rest != [] && |TopTexts(l)| == 7
    ensures Split(stream)[..7] == TopTexts(l)
  {
    PiecesAreHarmless(pieces, file);
    MessageLines(l, pieces);
    LinesLackCr(l, pieces);
    LinesOfStream(BeforeText(l), Chars(l.text), AfterText(l, pieces));
    TopIsFields(l);
    rest := Regrouped(TopTexts(l), [Delimiter(l)] + TextPartFields(l),
                      Split(Chars(l.text)) + (AfterText(l, pieces) + [[]]));
  }

  lemma Regrouped(a: seq<seq<Byte>>, b: seq<seq<Byte>>, c: seq<seq<Byte>>) returns (rest: seq<seq<Byte>>)
    requires b != []
    ensures (a + b) + c == a + rest && rest != [] && (a + rest)[..|a|] == a
  {
    rest := b + c;
  }

  lemma EncodingFound(l: Letter, pieces: seq<seq<Byte>>)
    requires FieldsAreLines(l)
    ensures Chars("Content-Transfer-Encoding: base64") in HeaderOf(AttachmentPart(l, pieces))
  {
    EncodingWritten(l);
    AttachmentFieldsAreHarmless(l);
    var f := AttachmentFields(l);
    HeaderBefore([f[0], f[1], f[2]], pieces);
    assert AttachmentPart(l, pieces) == [f[0], f[1], f[2]] + ([[]] + pieces);
    assert [f[0], f[1], f[2]][1] == f[1];
  }

  // main, for any message and file (empty when it does not open): what libcurl drains,
  // and what a mail reader finds in it.
  method SendMessage(l: Letter, file: seq<Byte>, ptr: array<Byte>, size: nat, nmemb: nat)
    returns (stream: seq<Byte>, ghost pieces: seq<seq<Byte>>)
    requires PlainLetter(l) && |file| <= FILE_LIMIT
    requires forall i :: 0 <= i < |Head(l)| ==> |Head(l)[i]| <= ptr.Length
    requires |Closing(l)| + 2 <= ptr.Length && CHUNK_SIZE + 2 <= ptr.Length
    requires size < WORD && nmemb < WORD && size * nmemb % WORD >= 1
    modifies ptr
    ensures Carries(stream, Flatten(Head(l)), file, Chars("--" + l.boundary + "--")) && Flatten(pieces) == Encode(file)
    ensures FieldsAreLines(l) ==>
              && |Split(stream)| > 7 && Split(stream)[..7] == TopTexts(l)
              && (Parts(Split(stream), Announced(l)) == MessageParts(l, pieces)
                  <==> NoDelimiter(Split(Chars(l.text)), Announced(l)))
    ensures FieldsAreLines(l) && NoDelimiter(Split(Chars(l.text)), Announced(l)) ==>
              ReadAttachment(stream) == Some(file)
  {
    var ce := NewMessage(l);
    HeadIsPlain(l);
    ClosingIsPlain(l);
    stream, pieces := SendQueued(ce, file, Closing(l), ptr, size, nmemb);
    if FieldsAreLines(l) {
      AttachmentRead(l, file, pieces, stream);
    }
  }
}

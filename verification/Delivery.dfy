/**
  What reaches the receiver of a message that main of cpp/email_with_curl/main.cpp
  has sent, and when the attachment is found in it.
*/
module Delivery {
  import opened Base64
  import opened Base64Laws
  import opened Mail
  import opened Attachment
  import opened Message
  import opened Receiver
  import opened MachineInt
  import opened Options

  // ------------------------------------------------- after a known header

  // Taking line breaks out takes nothing else out.
  lemma {:induction false} StripKeeps(s: seq<Byte>, c: Byte)
    requires c in s && c != CR && c != LF
    ensures c in StripCrLf(s)
  {
    if |s| < 2 {
    } else if s[0] == CR && s[1] == LF {
      assert s == [CR, LF] + s[2..];
      StripKeeps(s[2..], c);
    } else if s[0] != c {
      assert s == [s[0]] + s[1..];
      StripKeeps(s[1..], c);
    }
  }

  // A delimiter starts with a dash, and an encoding has none.
  lemma NoDashInBody(body: seq<Byte>, file: seq<Byte>)
    requires StripCrLf(body) == Encode(file)
    ensures DASH !in body
  {
    if DASH in body {
      StripKeeps(body, DASH);
      EncodingLacks(file, DASH);
    }
  }

  // The attachment, when the header is known to have n bytes: up to the next dash.
  function ReadAfter(stream: seq<Byte>, n: nat): seq<Byte>
    requires n <= |stream|
  {
    Decode(StripCrLf(UpTo(stream[n..], DASH)))
  }

  // A stream of header, attachment and closing line, whose attachment is the file.
  ghost predicate Carries(stream: seq<Byte>, head: seq<Byte>, file: seq<Byte>, closing: seq<Byte>) {
    && |head| <= |stream| && stream[..|head|] == head
    && ReadAfter(stream, |head|) == file
    && |closing| + 2 <= |stream| && stream[|stream| - |closing| - 2..] == closing + CRLF
  }

  // The attachment, the closing line and the transfer, after any header.
  method SendQueued(ce: CurlEmail, file: seq<Byte>, closing: seq<Byte>, ptr: array<Byte>, size: nat, nmemb: nat)
    returns (stream: seq<Byte>, ghost pieces: seq<seq<Byte>>)
    requires |file| <= FILE_LIMIT
    requires PlainLines(ce.mailContent) && |ce.mailContent| + 286332 <= INT_MAX
    requires forall i :: 0 <= i < |ce.mailContent| ==> |ce.mailContent[i]| <= ptr.Length
    requires closing != [] && closing[0] == DASH && NUL !in closing
    requires |closing| + 2 <= ptr.Length && CHUNK_SIZE + 2 <= ptr.Length
    requires size < WORD && nmemb < WORD && size * nmemb % WORD >= 1
    modifies ce, ptr
    ensures Carries(stream, Flatten(old(ce.mailContent)), file, closing)
    ensures stream == Flatten(old(ce.mailContent)) + Flatten(Lines(pieces)) + closing + CRLF
    ensures Flatten(pieces) == Encode(file)
  {
    ghost var head := Flatten(ce.mailContent);
    stream, pieces := DeliverFile(ce, file, closing, ptr, size, nmemb);
    ghost var body := Flatten(Lines(pieces));
    assert head + body + closing + CRLF == head + body + (closing + CRLF);
    StreamCarries(stream, head, body, file, closing);
  }

  lemma StreamCarries(stream: seq<Byte>, head: seq<Byte>, body: seq<Byte>, file: seq<Byte>, closing: seq<Byte>)
    requires stream == head + body + (closing + CRLF) && closing != [] && closing[0] == DASH
    requires StripCrLf(body) == Encode(file) && Decode(StripCrLf(body)) == file
    ensures Carries(stream, head, file, closing)
  {
    var end := closing + CRLF;
    StreamSlices(stream, head, body, end);
    NoDashInBody(body, file);
    UpToFirst(body, DASH, end);
  }

  lemma StreamSlices<T>(stream: seq<T>, head: seq<T>, body: seq<T>, end: seq<T>)
    requires stream == head + body + end
    ensures |stream| == |head| + |body| + |end|
    ensures stream[..|head|] == head && stream[|head|..] == body + end && stream[|stream| - |end|..] == end
  {
  }

  // --------------------------------------------------- finding the attachment

  // Header fields are single lines; the text may have any number of them.
  ghost predicate OneLine(s: string) {
    '\r' !in s
  }

  ghost predicate FieldsAreLines(l: Letter) {
    && OneLine(l.name) && OneLine(l.email) && OneLine(l.subject) && OneLine(l.date)
    && OneLine(l.boundary) && OneLine(l.fileName)
  }

  function TextPart(l: Letter): seq<seq<Byte>> {
    TextPartFields(l) + Split(Chars(l.text)) + [[], []]
  }

  function AttachmentPart(l: Letter, pieces: seq<seq<Byte>>): seq<seq<Byte>> {
    AttachmentFields(l) + pieces
  }

  // The message as main means it: preamble, text, attachment, and nothing after.
  function MessageParts(l: Letter, pieces: seq<seq<Byte>>): seq<seq<seq<Byte>>> {
    [TopTexts(l), TextPart(l), AttachmentPart(l, pieces), [[]]]
  }

  // A line that cannot be taken for a delimiter and has no carriage return.
  ghost predicate Harmless(line: seq<Byte>) {
    CR !in line && (line != [] ==> line[0] != DASH)
  }

  lemma CharByteNotCr(c: char)
    requires c != '\r'
    ensures CharByte(c) != CR
  {
  }

  lemma CharsAreLine(s: string)
    requires OneLine(s)
    ensures CR !in Chars(s)
  {
    forall i | 0 <= i < |s|
      ensures Chars(s)[i] != CR
    {
      CharByteNotCr(s[i]);
    }
  }

  lemma CharByteNotDash(c: char)
    requires c != '-'
    ensures CharByte(c) != DASH
  {
  }

  lemma FieldIsHarmless(key: string, value: string)
    requires Key(key) && OneLine(value)
    ensures Harmless(Field(key, value)) && Field(key, value) != []
  {
    CharByteNotDash(key[0]);
    CharsAreLine(key);
    CharsAreLine(value);
  }

  lemma QuotedIsHarmless(key: string, before: string, s: string)
    requires Key(key) && Constant(before) && OneLine(s)
    ensures Harmless(Field(key, before + s + "\"")) && Field(key, before + s + "\"") != []
  {
    assert OneLine(before + s);
    FieldIsHarmless(key, before + s + "\"");
  }

  ghost predicate HarmlessLines(lines: seq<seq<Byte>>) {
    forall i :: 0 <= i < |lines| ==> Harmless(lines[i])
  }

  lemma TopIsHarmless(l: Letter)
    requires FieldsAreLines(l)
    ensures HarmlessLines(TopTexts(l))
  {
    TopKeys();
    ContentKeys();
    ShortValues();
    BoundaryValue();
    FieldIsHarmless("To", Contact(l));
    FieldIsHarmless("From", Contact(l));
    FieldIsHarmless("Subject", l.subject);
    FieldIsHarmless("Date", l.date);
    FieldIsHarmless("MIME-Version", "1.0");
    QuotedIsHarmless("Content-Type", "multipart/mixed; boundary=\"", l.boundary);
  }

  lemma TextPartFieldsAreHarmless(l: Letter)
    ensures HarmlessLines(TextPartFields(l))
  {
    ContentKeys();
    ShortValues();
    TextTypeValue();
    FieldIsHarmless("Content-Type", "text/html; charset=\"ISO-8859-1\"");
    FieldIsHarmless("Content-Transfer-Encoding", "7bit");
  }

  lemma AttachmentFieldsAreHarmless(l: Letter)
    requires FieldsAreLines(l)
    ensures HarmlessLines(AttachmentFields(l))
    ensures forall i :: 0 <= i < 3 ==> AttachmentFields(l)[i] != []
  {
    ContentKeys();
    ShortValues();
    FileNameValues();
    QuotedIsHarmless("Content-Type", "image/pdf; name=\"", l.fileName);
    FieldIsHarmless("Content-Transfer-Encoding", "base64");
    QuotedIsHarmless("Content-Disposition", "attachment; filename=\"", l.fileName);
  }

  lemma {:induction false} FlattenHolds(p: seq<seq<Byte>>, i: nat, c: Byte)
    requires i < |p| && c in p[i]
    ensures c in Flatten(p)
  {
    if i == 0 {
    } else {
      FlattenHolds(p[1..], i - 1, c);
    }
  }

  // The pieces of an encoding have neither dashes nor carriage returns.
  lemma PiecesAreHarmless(pieces: seq<seq<Byte>>, file: seq<Byte>)
    requires Flatten(pieces) == Encode(file)
    ensures HarmlessLines(pieces)
  {
    EncodingLacks(file, CR);
    EncodingLacks(file, DASH);
    forall i | 0 <= i < |pieces|
      ensures Harmless(pieces[i])
    {
      if CR in pieces[i] {
        FlattenHolds(pieces, i, CR);
      }
      if DASH in pieces[i] {
        FlattenHolds(pieces, i, DASH);
      }
    }
  }

  lemma DelimiterMeans(l: Letter)
    requires FieldsAreLines(l)
    ensures CR !in Delimiter(l) && CR !in Closing(l) && Delimiter(l) != [] && Delimiter(l)[0] == DASH
    ensures StartsWith(Delimiter(l), Delimiter(l)) && StartsWith(Closing(l), Delimiter(l))
  {
    assert OneLine("--" + l.boundary) && OneLine("--" + l.boundary + "--");
    CharsAreLine("--" + l.boundary);
    CharsAreLine("--" + l.boundary + "--");
  }

  lemma FlattenLines(a: seq<seq<Byte>>, text: seq<Byte>, b: seq<seq<Byte>>)
    ensures Flatten(Lines(a + [text] + b)) == Flatten(Lines(a)) + (text + (CRLF + Flatten(Lines(b))))
  {
    var line := text + CRLF;
    assert Lines(a + [text] + b) == Lines(a) + ([line] + Lines(b));
    FlattenConcat(Lines(a), [line] + Lines(b));
    assert ([line] + Lines(b))[1..] == Lines(b);
    Assoc(text, CRLF, Flatten(Lines(b)));
  }

  // A receiver that cuts the stream at line ends sees the lines that were queued,
  // and those of the text.
  lemma LinesOfStream(a: seq<seq<Byte>>, text: seq<Byte>, b: seq<seq<Byte>>)
    requires Lacks(a, CR) && Lacks(b, CR)
    ensures Split(Flatten(Lines(a + [text] + b))) == a + (Split(text) + (b + [[]]))
  {
    var rest := Flatten(Lines(b));
    FlattenLines(a, text, b);
    SplitLines(a, text + (CRLF + rest));
    SplitConcat(text, rest);
    SplitLines(b, []);
    assert rest + [] == rest;
  }

  // The lines of main's message before and after its text.
  function BeforeText(l: Letter): seq<seq<Byte>> {
    TopTexts(l) + ([Delimiter(l)] + TextPartFields(l))
  }

  function AfterText(l: Letter, pieces: seq<seq<Byte>>): seq<seq<Byte>> {
    [[], []] + ([Delimiter(l)] + (AttachmentPart(l, pieces) + [Closing(l)]))
  }

  lemma MessageLines(l: Letter, pieces: seq<seq<Byte>>)
    ensures Flatten(Head(l)) + Flatten(Lines(pieces)) + Closing(l) + CRLF ==
            Flatten(Lines(BeforeText(l) + [Chars(l.text)] + AfterText(l, pieces)))
  {
    var last := Closing(l) + CRLF;
    var all := BeforeText(l) + [Chars(l.text)] + AfterText(l, pieces);
    assert all == (TopTexts(l) + TextPartTexts(l) + AttachmentTexts(l)) + pieces + [Closing(l)];
    LinesConcat(TopTexts(l) + TextPartTexts(l) + AttachmentTexts(l), pieces, Closing(l));
    assert Head(l) == Lines(TopTexts(l) + TextPartTexts(l) + AttachmentTexts(l));
    FlattenThree(Head(l), Lines(pieces), last);
    Assoc(Flatten(Head(l)) + Flatten(Lines(pieces)), Closing(l), CRLF);
  }

  lemma LinesConcat(a: seq<seq<Byte>>, b: seq<seq<Byte>>, last: seq<Byte>)
    ensures Lines(a + b + [last]) == Lines(a) + Lines(b) + [last + CRLF]
  {
  }

  // What main's delimiter lines start with: two dashes and the boundary, or part of it.
  ghost predicate Cuts(l: Letter, d: seq<Byte>) {
    d != [] && d[0] == DASH && StartsWith(Delimiter(l), d) && StartsWith(Closing(l), d)
  }

  // Such a start cuts those lines into main's parts, and into more exactly when a
  // line of the text starts like that.
  lemma PartsOfLines(l: Letter, pieces: seq<seq<Byte>>, d: seq<Byte>)
    requires FieldsAreLines(l) && HarmlessLines(pieces) && Cuts(l, d)
    ensures var parts := Parts(BeforeText(l) + (Split(Chars(l.text)) + (AfterText(l, pieces) + [[]])), d);
            parts == MessageParts(l, pieces) <==> NoDelimiter(Split(Chars(l.text)), d)
  {
    var x, y, z := TopTexts(l), TextPart(l), AttachmentPart(l, pieces);
    TopIsHarmless(l);
    TextPartFieldsAreHarmless(l);
    AttachmentFieldsAreHarmless(l);
    LinesRegrouped(l, pieces);
    HarmlessIsNoDelimiter(x, d);
    HarmlessIsNoDelimiter(z, d);
    TextDelimiters(l, d);
    ThreeParts(x, Delimiter(l), y, z, Closing(l), d);
  }

  lemma LinesRegrouped(l: Letter, pieces: seq<seq<Byte>>)
    ensures BeforeText(l) + (Split(Chars(l.text)) + (AfterText(l, pieces) + [[]])) ==
            var c := [Delimiter(l)];
            TopTexts(l) + (c + (TextPart(l) + (c + (AttachmentPart(l, pieces) + ([Closing(l)] + [[]])))))
  {
  }

  // Lines cut by two delimiters and the closing one: four parts exactly when the second has none.
  lemma ThreeParts(x: seq<seq<Byte>>, c: seq<Byte>, y: seq<seq<Byte>>, z: seq<seq<Byte>>, last: seq<Byte>, d: seq<Byte>)
    requires d != [] && StartsWith(c, d) && StartsWith(last, d) && NoDelimiter(x, d) && NoDelimiter(z, d)
    ensures Parts(x + ([c] + (y + ([c] + (z + ([last] + [[]]))))), d) == [x, y, z, [[]]] <==> NoDelimiter(y, d)
  {
    var end: seq<seq<Byte>> := [[]];
    var third := z + ([last] + end);
    var second := y + ([c] + third);
    PartsConcat(x, c, second, d);
    PartsConcat(y, c, third, d);
    PartsConcat(z, last, end, d);
    OnePart(x, d);
    OnePart(y, d);
    OnePart(z, d);
    OnePart(end, d);
    MiddleIsOne([x], Parts(y, d), y, [z], end);
  }

  lemma MiddleIsOne(a: seq<seq<seq<Byte>>>, m: seq<seq<seq<Byte>>>, y: seq<seq<Byte>>, c: seq<seq<seq<Byte>>>,
                    end: seq<seq<Byte>>)
    requires |a| == |c| == 1
    ensures a + (m + (c + [end])) == [a[0], y, c[0], end] <==> m == [y]
  {
    var whole := a + (m + (c + [end]));
    if whole == [a[0], y, c[0], end] {
      assert |m| == 1;
      assert m[0] == whole[1];
    }
  }

  lemma HarmlessIsNoDelimiter(lines: seq<seq<Byte>>, d: seq<Byte>)
    requires HarmlessLines(lines) && d != [] && d[0] == DASH
    ensures NoDelimiter(lines, d)
  {
    forall i | 0 <= i < |lines|
      ensures !StartsWith(lines[i], d)
    {
      assert Harmless(lines[i]);
      assert |d| <= |lines[i]| ==> lines[i][..|d|][0] == lines[i][0];
    }
  }

  lemma TextDelimiters(l: Letter, d: seq<Byte>)
    requires FieldsAreLines(l) && d != [] && d[0] == DASH
    ensures NoDelimiter(TextPart(l), d) <==> NoDelimiter(Split(Chars(l.text)), d)
  {
    var a, b, e: seq<seq<Byte>> := TextPartFields(l), Split(Chars(l.text)), [[], []];
    TextPartFieldsAreHarmless(l);
    HarmlessIsNoDelimiter(a, d);
    HarmlessIsNoDelimiter(e, d);
    NoDelimiterConcat(a + b, e, d);
    NoDelimiterConcat(a, b, d);
  }

  lemma NoDelimiterConcat(a: seq<seq<Byte>>, b: seq<seq<Byte>>, d: seq<Byte>)
    ensures NoDelimiter(a + b, d) <==> NoDelimiter(a, d) && NoDelimiter(b, d)
  {
    if NoDelimiter(a + b, d) {
      forall i | 0 <= i < |a| ensures !StartsWith(a[i], d) { assert a[i] == (a + b)[i]; }
      forall i | 0 <= i < |b| ensures !StartsWith(b[i], d) { assert b[i] == (a + b)[|a| + i]; }
    }
  }

  // What a receiver who knows how delimiter lines start makes of the stream: the parts that
  // main means exactly when no line of the text starts like that, and then the file.
  lemma AttachmentFound(l: Letter, file: seq<Byte>, pieces: seq<seq<Byte>>, stream: seq<Byte>, d: seq<Byte>)
    requires FieldsAreLines(l) && Flatten(pieces) == Encode(file) && Cuts(l, d)
    requires stream == Flatten(Head(l)) + Flatten(Lines(pieces)) + Closing(l) + CRLF
    ensures Parts(Split(stream), d) == MessageParts(l, pieces) <==> NoDelimiter(Split(Chars(l.text)), d)
    ensures NoDelimiter(Split(Chars(l.text)), d) ==> Receive(stream, d) == Some(file)
  {
    PiecesAreHarmless(pieces, file);
    MessageLines(l, pieces);
    LinesLackCr(l, pieces);
    LinesOfStream(BeforeText(l), Chars(l.text), AfterText(l, pieces));
    PartsOfLines(l, pieces, d);
    BodyOfAttachment(l, pieces);
    DecodeEncode(file);
  }

  lemma LinesLackCr(l: Letter, pieces: seq<seq<Byte>>)
    requires FieldsAreLines(l) && HarmlessLines(pieces)
    ensures Lacks(BeforeText(l), CR) && Lacks(AfterText(l, pieces), CR)
  {
    DelimiterMeans(l);
    TopIsHarmless(l);
    TextPartFieldsAreHarmless(l);
    AttachmentFieldsAreHarmless(l);
    HarmlessLackCr(TopTexts(l));
    HarmlessLackCr(TextPartFields(l));
    HarmlessLackCr(AttachmentFields(l));
    HarmlessLackCr(pieces);
  }

  lemma HarmlessLackCr(lines: seq<seq<Byte>>)
    requires HarmlessLines(lines)
    ensures Lacks(lines, CR)
  {
    forall i | 0 <= i < |lines| ensures CR !in lines[i] { assert Harmless(lines[i]); }
  }

  lemma BodyOfAttachment(l: Letter, pieces: seq<seq<Byte>>)
    requires FieldsAreLines(l)
    ensures BodyOf(AttachmentPart(l, pieces)) == pieces
  {
    AttachmentFieldsAreHarmless(l);
    var f := AttachmentFields(l);
    BodyAfterFields([f[0], f[1], f[2]], pieces);
    assert AttachmentPart(l, pieces) == [f[0], f[1], f[2]] + ([[]] + pieces);
  }

  lemma {:induction false} BodyAfterFields(fields: seq<seq<Byte>>, body: seq<seq<Byte>>)
    requires forall i :: 0 <= i < |fields| ==> fields[i] != []
    ensures BodyOf(fields + ([[]] + body)) == body
  {
    var s := fields + ([[]] + body);
    if fields == [] {
      assert s == [[]] + body;
    } else {
      BodyAfterFields(fields[1..], body);
      assert s[1..] == fields[1..] + ([[]] + body);
    }
  }

  // The text of main is one line that starts with another character.
  const MAIN_TEXT: string := "<b>The</b> " + "<a href=\"http://paul.grozav.info\">" + "message</a>."

  lemma MainTextIsLine()
    ensures OneLine(MAIN_TEXT) && MAIN_TEXT != "" && MAIN_TEXT[0] != '-'
  {
    assert MAIN_TEXT[0] == "<b>The</b> "[0] == '<';
  }

  lemma MainTextIsSafe(l: Letter)
    requires FieldsAreLines(l) && l.text == MAIN_TEXT
    ensures NoDelimiter(Split(Chars(l.text)), Delimiter(l))
  {
    MainTextIsLine();
    CharsAreLine(MAIN_TEXT);
    CharByteNotDash(MAIN_TEXT[0]);
    SplitOneLine(Chars(MAIN_TEXT));
    DelimiterMeans(l);
    HarmlessIsNoDelimiter([Chars(MAIN_TEXT)], Delimiter(l));
  }
}

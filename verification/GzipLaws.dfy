/** Which gzip members gzdecode recovers, and what it returns for them. */
module GzipLaws {
  import opened Gzip
  import opened Options

  // ------------------------------------------------------------- every input

  function FlagLength(flags: Octet, mask: int, n: nat): nat
    requires mask > 0
  {
    if HasFlag(flags, mask) then n else 0
  }

  // Where the body starts, as the fields that were read add up.
  function BodyStart(d: seq<Octet>, name: seq<Octet>, comment: seq<Octet>): nat
    requires |d| >= 18
  {
    10 + FlagLength(d[3], FEXTRA, 2 + Le16(d[8..10])) + FlagLength(d[3], FNAME, |name| + 1)
       + FlagLength(d[3], FCOMMENT, |comment| + 1) + FlagLength(d[3], FHCRC, 2)
  }

  // The stages of a parse that splits a member.
  lemma StagesOf(lib: Library, d: seq<Octet>) returns (at: nat, name: Field, comment: Field)
    requires ParseMember(lib, d).Parts?
    ensures |d| >= 18 && d[..2] == [ID1, ID2] && !FlagsRejected(d[3])
    ensures at == 10 + FlagLength(d[3], FEXTRA, 2 + Le16(d[8..10])) <= |d| - 8
    ensures name == StringField(d, at, HasFlag(d[3], FNAME)) && name.Field?
    ensures comment == StringField(d, name.next, HasFlag(d[3], FCOMMENT)) && comment.Field?
    ensures ParseMember(lib, d) == ParseRest(lib, d, name.text, comment.text, comment.next)
  {
    at := ExtraField(d, HasFlag(d[3], FEXTRA)).next;
    name := StringField(d, at, HasFlag(d[3], FNAME));
    comment := StringField(d, name.next, HasFlag(d[3], FCOMMENT));
  }

  lemma RestParts(lib: Library, d: seq<Octet>, name: seq<Octet>, comment: seq<Octet>, at: nat)
    requires 18 <= |d| && at + 8 <= |d| && ParseRest(lib, d, name, comment, at).Parts?
    ensures var start := at + FlagLength(d[3], FHCRC, 2);
            && start + 8 < |d|
            && ParseRest(lib, d, name, comment, at)
            == Parts(d[2], name, comment, d[start..|d| - 8], Le32(d[|d| - 8..|d| - 4]), Le32(d[|d| - 4..]))
    ensures HasFlag(d[3], FHCRC) ==> Le16(d[at..at + 2]) == lib.crc32(d[..at]) % 65536
  {
  }

  // Any bytes, any flags: when a member is split, header, body and the eight bytes
  // of the footer tile the input, and the body is not empty.
  lemma PartsTile(lib: Library, d: seq<Octet>)
    requires ParseMember(lib, d).Parts?
    ensures |d| >= 18 && !FlagsRejected(d[3])
    ensures var p := ParseMember(lib, d); var start := BodyStart(d, p.filename, p.comment);
            && start + |p.body| + 8 == |d| && p.body == d[start..|d| - 8] && |p.body| >= 1
            && p.compression == d[2] && p.crc == Le32(d[|d| - 8..|d| - 4]) && p.size == Le32(d[|d| - 4..])
            && 0 !in p.filename && 0 !in p.comment
  {
    var at, name, comment := StagesOf(lib, d);
    FieldLength(d, at, HasFlag(d[3], FNAME));
    FieldLength(d, name.next, HasFlag(d[3], FCOMMENT));
    RestParts(lib, d, name.text, comment.text, comment.next);
  }

  lemma FieldLength(d: seq<Octet>, at: nat, present: bool)
    requires at + 8 <= |d| && StringField(d, at, present).Field?
    ensures var f := StringField(d, at, present);
            f.next == at + (if present then |f.text| + 1 else 0) && 0 !in f.text
  {
    FieldMeans(d, at, present);
  }

  // --------------------------------------------------------- members by layout

  lemma FindZeroOf(text: seq<Octet>, rest: seq<Octet>)
    requires 0 !in text
    ensures FindZero(text + [0] + rest) == |text|
  {
    var s := text + [0] + rest;
    assert s[|text|] == 0 && s[..|text|] == text;
    var i := FindZero(s);
    assert s[..i] == text[..i] || i > |text|;
  }

  // A string field at its place in the layout is read back whole.
  lemma FieldOf(before: seq<Octet>, text: seq<Octet>, present: bool, after: seq<Octet>)
    requires 0 !in text && (!present ==> text == []) && |after| >= 8
    ensures StringField(before + (TextPart(text, present) + after), |before|, present)
         == Field(text, |before| + |TextPart(text, present)|)
  {
    var d := before + (TextPart(text, present) + after);
    if present {
      assert d[|before|..] == text + [0] + after;
      FindZeroOf(text, after);
      assert d[|before|..|before| + |text|] == text;
    }
  }

  lemma HeaderSplits(lib: Library, m: Member)
    requires WellFormed(m)
    ensures var d := Layout(lib, m);
            && |d| >= 18 && d[..2] == [ID1, ID2] && d[2] == m.compression && d[3] == m.flags
            && d[8..10] == [m.xfl, m.os]
  {
    var f := FixedPart(m);
    var rest := Layout(lib, m)[10..];
    assert |f| == 10;
    assert Layout(lib, m)[..10] == f;
    assert f[8..10] == [m.xfl, m.os];
    assert Layout(lib, m)[8..10] == Layout(lib, m)[..10][8..10];
    assert Layout(lib, m)[..2] == Layout(lib, m)[..10][..2];
  }

  // XFL and OS happen to hold the length of the extra field.
  predicate ExtraLengthFound(m: Member) {
    HasFlag(m.flags, FEXTRA) ==> m.xfl + 256 * m.os == |m.extra|
  }

  // The parser gets back what the member was built from.
  ghost predicate Recovered(lib: Library, m: Member)
    requires WellFormed(m)
  {
    ParseMember(lib, Layout(lib, m)) == Parts(m.compression, m.name, m.comment, m.body, m.crc, m.size)
  }

  // From the header checksum to the end.
  lemma Footer(lib: Library, m: Member, at: nat) returns (start: nat)
    requires WellFormed(m) && at == |Header(m)|
    ensures start == at + FlagLength(m.flags, FHCRC, 2) == at + |CrcPart(lib, m)|
    ensures var d := Layout(lib, m);
            && |d| == start + |m.body| + 8
            && d[..at] == Header(m) && d[at..start] == CrcPart(lib, m) && d[start..|d| - 8] == m.body
            && d[|d| - 8..|d| - 4] == Bytes32(m.crc) && d[|d| - 4..] == Bytes32(m.size)
  {
    start := at + |CrcPart(lib, m)|;
  }

  lemma RestOf(lib: Library, m: Member, at: nat)
    requires WellFormed(m) && |m.body| >= 1 && at == |Header(m)|
    ensures |Layout(lib, m)| >= at + 8 && |Layout(lib, m)| >= 18
    ensures ParseRest(lib, Layout(lib, m), m.name, m.comment, at)
         == Parts(m.compression, m.name, m.comment, m.body, m.crc, m.size)
  {
    HeaderSplits(lib, m);
    var start := Footer(lib, m, at);
    if HasFlag(m.flags, FHCRC) {
      assert Le16(Layout(lib, m)[at..start]) == lib.crc32(Header(m)) % 65536;
    }
    RestSplits(lib, Layout(lib, m), m.flags, m.name, m.comment, at, start);
  }

  // The rest of a parse, when the header checksum is in order and there is a body.
  lemma RestSplits(lib: Library, d: seq<Octet>, flags: Octet, name: seq<Octet>, comment: seq<Octet>,
                   at: nat, start: nat)
    requires 18 <= |d| && d[3] == flags && start == at + FlagLength(flags, FHCRC, 2) && start + 8 < |d|
    requires HasFlag(flags, FHCRC) ==> Le16(d[at..start]) == lib.crc32(d[..at]) % 65536
    ensures ParseRest(lib, d, name, comment, at)
         == Parts(d[2], name, comment, d[start..|d| - 8], Le32(d[|d| - 8..|d| - 4]), Le32(d[|d| - 4..]))
  {
  }

  function NamePart(m: Member): seq<Octet> {
    TextPart(m.name, HasFlag(m.flags, FNAME))
  }

  function CommentPart(m: Member): seq<Octet> {
    TextPart(m.comment, HasFlag(m.flags, FCOMMENT))
  }

  // The layout as what comes before, in and after each string field.
  lemma LayoutSplits(lib: Library, m: Member)
    requires WellFormed(m)
    ensures var tail := CrcPart(lib, m) + m.body + Bytes32(m.crc) + Bytes32(m.size);
            var x := FixedPart(m) + ExtraPart(m);
            && |x| == 10 + |ExtraPart(m)| && |Header(m)| == |x| + |NamePart(m)| + |CommentPart(m)|
            && Layout(lib, m) == x + (NamePart(m) + (CommentPart(m) + tail))
            && Layout(lib, m) == (x + NamePart(m)) + (CommentPart(m) + tail)
  {
  }

  lemma NameOf(lib: Library, m: Member, at: nat) returns (next: nat)
    requires WellFormed(m) && at == 10 + |ExtraPart(m)|
    ensures next == at + |NamePart(m)| && at + 8 <= |Layout(lib, m)|
    ensures StringField(Layout(lib, m), at, HasFlag(m.flags, FNAME)) == Field(m.name, next)
  {
    LayoutSplits(lib, m);
    var tail := CrcPart(lib, m) + m.body + Bytes32(m.crc) + Bytes32(m.size);
    FieldOf(FixedPart(m) + ExtraPart(m), m.name, HasFlag(m.flags, FNAME), CommentPart(m) + tail);
    next := at + |NamePart(m)|;
  }

  lemma CommentOf(lib: Library, m: Member, at: nat) returns (next: nat)
    requires WellFormed(m) && at == 10 + |ExtraPart(m)| + |NamePart(m)|
    ensures next == |Header(m)| && at + 8 <= |Layout(lib, m)|
    ensures StringField(Layout(lib, m), at, HasFlag(m.flags, FCOMMENT)) == Field(m.comment, next)
  {
    LayoutSplits(lib, m);
    var tail := CrcPart(lib, m) + m.body + Bytes32(m.crc) + Bytes32(m.size);
    FieldOf(FixedPart(m) + ExtraPart(m) + NamePart(m), m.comment, HasFlag(m.flags, FCOMMENT), tail);
    next := |Header(m)|;
  }

  // A parse, stage by stage.
  lemma ParseByStages(lib: Library, d: seq<Octet>, flags: Octet, at1: nat, name: seq<Octet>, at2: nat,
                      comment: seq<Octet>, at3: nat)
    requires |d| >= 18 && d[..2] == [ID1, ID2] && d[3] == flags && !FlagsRejected(flags)
    requires ExtraField(d, HasFlag(flags, FEXTRA)).Field? && ExtraField(d, HasFlag(flags, FEXTRA)).next == at1
    requires at1 + 8 <= |d| && StringField(d, at1, HasFlag(flags, FNAME)) == Field(name, at2)
    requires at2 + 8 <= |d| && StringField(d, at2, HasFlag(flags, FCOMMENT)) == Field(comment, at3)
    requires at3 + 8 <= |d|
    ensures ParseMember(lib, d) == ParseRest(lib, d, name, comment, at3)
  {
  }

  lemma StartParsed(lib: Library, m: Member) returns (at: nat)
    requires WellFormed(m) && |m.body| >= 1 && ExtraLengthFound(m)
    ensures at == 10 + |ExtraPart(m)|
    ensures var d := Layout(lib, m);
            && |d| >= 18 && d[..2] == [ID1, ID2] && d[3] == m.flags
            && ExtraField(d, HasFlag(m.flags, FEXTRA)).Field? && ExtraField(d, HasFlag(m.flags, FEXTRA)).next == at
  {
    HeaderSplits(lib, m);
    LayoutSplits(lib, m);
    at := 10 + |ExtraPart(m)|;
  }

  lemma RecoveredWhen(lib: Library, m: Member)
    requires WellFormed(m) && !FlagsRejected(m.flags) && |m.body| >= 1 && ExtraLengthFound(m)
    ensures Recovered(lib, m)
  {
    var at := StartParsed(lib, m);
    var next := NameOf(lib, m, at);
    var end := CommentOf(lib, m, next);
    RestOf(lib, m, end);
    ParseByStages(lib, Layout(lib, m), m.flags, at, m.name, next, m.comment, end);
  }

  lemma RecoveredOnlyWhen(lib: Library, m: Member)
    requires WellFormed(m)
    ensures Recovered(lib, m) ==> !FlagsRejected(m.flags) && |m.body| >= 1 && ExtraLengthFound(m)
  {
    HeaderSplits(lib, m);
    if Recovered(lib, m) {
      PartsTile(lib, Layout(lib, m));
      LayoutSplits(lib, m);
    }
  }

  // Exactly the members without FTEXT (or with all five defined flags and no
  // other), with a body, and with no extra field unless its length is in XFL and OS.
  lemma RecoveredExactly(lib: Library, m: Member)
    requires WellFormed(m)
    ensures Recovered(lib, m) <==> !FlagsRejected(m.flags) && |m.body| >= 1 && ExtraLengthFound(m)
  {
    RecoveredOnlyWhen(lib, m);
    if !FlagsRejected(m.flags) && |m.body| >= 1 && ExtraLengthFound(m) {
      RecoveredWhen(lib, m);
    }
  }

  // An empty file with an extra field of one byte, packed on Unix: OS is 3, so 768
  // is read as the length of the field, and the call gives up.
  const EXTRA_EXAMPLE: Member := Member(8, 4, [0, 0, 0, 0], 0, 3, [1], [], [], [3, 0], 0, 0)

  lemma ExtraFieldExample(lib: Library)
    ensures WellFormed(EXTRA_EXAMPLE) && !Recovered(lib, EXTRA_EXAMPLE)
    ensures ParseMember(lib, Layout(lib, EXTRA_EXAMPLE)) == GaveUp(False, "", None)
  {
    HeaderSplits(lib, EXTRA_EXAMPLE);
    var start := Footer(lib, EXTRA_EXAMPLE, |Header(EXTRA_EXAMPLE)|);
  }

  // ------------------------------------------------ from the bytes to a member

  lemma Bytes16Back(s: seq<Octet>)
    requires |s| == 2
    ensures Le16(s) < 65536 && Bytes16(Le16(s)) == s
  {
  }

  lemma Bytes32Back(s: seq<Octet>)
    requires |s| == 4
    ensures Le32(s) < 0x1_0000_0000 && Bytes32(Le32(s)) == s
  {
    Bytes16Back(s[..2]);
    Bytes16Back(s[2..]);
    var n := Le32(s);
    assert n % 65536 == Le16(s[..2]) && n / 65536 == Le16(s[2..]);
    assert s[..2] + s[2..] == s;
  }

  // The member that a split without an extra field describes.
  function Rebuilt(lib: Library, d: seq<Octet>): Member
    requires ParseMember(lib, d).Parts? && |d| >= 18
  {
    var p := ParseMember(lib, d);
    Member(d[2], d[3], d[4..8], d[8], d[9], [], p.filename, p.comment, p.body, p.crc, p.size)
  }

  // Its header is the input up to the cursor after the comment.
  lemma HeaderBytes(m: Member, d: seq<Octet>, at2: nat, at3: nat)
    requires |d| >= 18 && d[..2] == [ID1, ID2] && 10 <= at2 <= at3 <= |d|
    requires m.compression == d[2] && m.flags == d[3] && m.mtime == d[4..8] && m.xfl == d[8] && m.os == d[9]
    requires m.extra == [] && !HasFlag(m.flags, FEXTRA)
    requires d[10..at2] == NamePart(m) && d[at2..at3] == CommentPart(m)
    ensures Header(m) == d[..at3]
  {
    assert FixedPart(m) == d[..10] by {
      assert d[0] == d[..2][0] && d[1] == d[..2][1];
      assert m.mtime[0] == d[4] && m.mtime[1] == d[5] && m.mtime[2] == d[6] && m.mtime[3] == d[7];
    }
    assert d[..10] + d[10..at2] + d[at2..at3] == d[..at3];
  }

  lemma LayoutBytes(lib: Library, m: Member, d: seq<Octet>, at: nat, start: nat)
    requires |m.extra| < 65536 && m.crc < 0x1_0000_0000 && m.size < 0x1_0000_0000
    requires at <= start && start + 8 <= |d| && Header(m) == d[..at] && CrcPart(lib, m) == d[at..start]
    requires m.body == d[start..|d| - 8] && Bytes32(m.crc) == d[|d| - 8..|d| - 4] && Bytes32(m.size) == d[|d| - 4..]
    ensures Layout(lib, m) == d
  {
  }

  lemma HeaderRebuilds(lib: Library, d: seq<Octet>, m: Member) returns (at: nat)
    requires ParseMember(lib, d).Parts? && |d| >= 18 && !HasFlag(d[3], FEXTRA) && m == Rebuilt(lib, d)
    ensures at + 8 <= |d| && Header(m) == d[..at]
    ensures ParseMember(lib, d) == ParseRest(lib, d, m.name, m.comment, at)
    ensures 0 !in m.name && (!HasFlag(m.flags, FNAME) ==> m.name == [])
    ensures 0 !in m.comment && (!HasFlag(m.flags, FCOMMENT) ==> m.comment == [])
  {
    var start, name, comment := StagesOf(lib, d);
    at := comment.next;
    FieldMeans(d, start, HasFlag(d[3], FNAME));
    FieldMeans(d, name.next, HasFlag(d[3], FCOMMENT));
    RestParts(lib, d, name.text, comment.text, at);
    HeaderBytes(m, d, name.next, at);
  }

  lemma BodyRebuilds(lib: Library, d: seq<Octet>, m: Member, at: nat) returns (start: nat)
    requires ParseMember(lib, d).Parts? && |d| >= 18 && m == Rebuilt(lib, d) && at + 8 <= |d|
    requires ParseMember(lib, d) == ParseRest(lib, d, m.name, m.comment, at)
    ensures start == at + FlagLength(d[3], FHCRC, 2) && start + 8 < |d| && m.body == d[start..|d| - 8]
    ensures m.flags == d[3] && |m.mtime| == 4 && m.extra == []
    ensures m.crc == Le32(d[|d| - 8..|d| - 4]) && m.size == Le32(d[|d| - 4..])
    ensures HasFlag(d[3], FHCRC) ==> Le16(d[at..start]) == lib.crc32(d[..at]) % 65536
  {
    RestParts(lib, d, m.name, m.comment, at);
    start := at + FlagLength(d[3], FHCRC, 2);
  }

  // A member with the header, checksum, body and footer of the bytes lays out to them.
  lemma MemberRebuilds(lib: Library, d: seq<Octet>, m: Member, at: nat, start: nat)
    requires |d| >= 18 && start == at + FlagLength(d[3], FHCRC, 2) && start + 8 < |d| && m.flags == d[3]
    requires |m.extra| < 65536 && Header(m) == d[..at] && m.body == d[start..|d| - 8]
    requires m.crc == Le32(d[|d| - 8..|d| - 4]) && m.size == Le32(d[|d| - 4..])
    requires HasFlag(d[3], FHCRC) ==> Le16(d[at..start]) == lib.crc32(d[..at]) % 65536
    ensures m.crc < 0x1_0000_0000 && m.size < 0x1_0000_0000 && Layout(lib, m) == d
  {
    FooterBytes(d, m);
    CrcBytes(lib, m, d, at, start);
    LayoutBytes(lib, m, d, at, start);
  }

  // Building the member again gives the input back.
  lemma SplitRebuilds(lib: Library, d: seq<Octet>)
    requires ParseMember(lib, d).Parts? && |d| >= 18 && !HasFlag(d[3], FEXTRA)
    ensures WellFormed(Rebuilt(lib, d)) && Layout(lib, Rebuilt(lib, d)) == d
  {
    var m := Rebuilt(lib, d);
    var at := HeaderRebuilds(lib, d, m);
    var start := BodyRebuilds(lib, d, m, at);
    MemberRebuilds(lib, d, m, at, start);
  }

  // The footer fields fit their bytes.
  lemma FooterBytes(d: seq<Octet>, m: Member)
    requires |d| >= 18 && m.crc == Le32(d[|d| - 8..|d| - 4]) && m.size == Le32(d[|d| - 4..])
    ensures m.crc < 0x1_0000_0000 && Bytes32(m.crc) == d[|d| - 8..|d| - 4]
    ensures m.size < 0x1_0000_0000 && Bytes32(m.size) == d[|d| - 4..]
  {
    Bytes32Back(d[|d| - 8..|d| - 4]);
    Bytes32Back(d[|d| - 4..]);
  }

  lemma CrcBytes(lib: Library, m: Member, d: seq<Octet>, at: nat, start: nat)
    requires |d| >= 18 && start == at + FlagLength(d[3], FHCRC, 2) && start + 8 <= |d| && m.flags == d[3]
    requires |m.extra| < 65536 && Header(m) == d[..at]
    requires HasFlag(d[3], FHCRC) ==> Le16(d[at..start]) == lib.crc32(d[..at]) % 65536
    ensures CrcPart(lib, m) == d[at..start]
  {
    if HasFlag(d[3], FHCRC) {
      Bytes16Back(d[at..start]);
    }
  }

  // Bytes without the FEXTRA flag are split exactly when they are the layout of a
  // well-formed member with a body and accepted flags.
  lemma SplitExactly(lib: Library, d: seq<Octet>)
    requires |d| >= 18 && !HasFlag(d[3], FEXTRA)
    ensures ParseMember(lib, d).Parts? <==>
            exists m :: WellFormed(m) && Layout(lib, m) == d && !FlagsRejected(m.flags) && |m.body| >= 1
  {
    if ParseMember(lib, d).Parts? {
      SplitRebuilds(lib, d);
      PartsTile(lib, d);
      assert WellFormed(Rebuilt(lib, d));
    }
    if m :| WellFormed(m) && Layout(lib, m) == d && !FlagsRejected(m.flags) && |m.body| >= 1 {
      HeaderSplits(lib, m);
      RecoveredWhen(lib, m);
    }
  }

  // ------------------------------------------------------------ the whole call

  // A conforming compressor built the member from content (ISIZE is modulo 2^32).
  ghost predicate Compressed(lib: Library, m: Member, content: seq<Octet>, maxlength: Option<int>) {
    && m.compression == 8
    && lib.inflate(m.body, maxlength) == Some(content)
    && m.crc == lib.crc32(content) && m.size == |content| % 0x1_0000_0000
  }

  // For a recovered member the call returns the content exactly when its length
  // fits the footer, and always leaves the file name.
  lemma DecodedExactly(lib: Library, m: Member, content: seq<Octet>, filename0: seq<Octet>, error0: string,
                       maxlength: Option<int>)
    requires WellFormed(m) && Compressed(lib, m, content, maxlength)
    ensures var p := ParseMember(lib, Layout(lib, m));
            var (result, filename, error) := Outcome(lib, p, filename0, error0, maxlength);
            Recovered(lib, m) ==> filename == m.name && (result == Data(content) <==> |content| < 0x1_0000_0000)
  {
    if Recovered(lib, m) {
      DecodedParts(lib, ParseMember(lib, Layout(lib, m)), content, filename0, error0, maxlength);
    }
  }

  // 2^32 zero bytes, with a checksum of zero: the footer says the size is zero.
  lemma LongContentExample()
    ensures var content: seq<Octet> := seq(0x1_0000_0000, _ => 0);
            var lib := Library(_ => 0, (_, _) => Some(content));
            var m := Member(8, 0, [0, 0, 0, 0], 0, 3, [], [], [], [0], 0, 0);
            && WellFormed(m) && Compressed(lib, m, content, None) && Recovered(lib, m)
            && Outcome(lib, ParseMember(lib, Layout(lib, m)), [], "", None).0 == False
  {
    var content: seq<Octet> := seq(0x1_0000_0000, _ => 0);
    var lib := Library(_ => 0, (_, _) => Some(content));
    RecoveredWhen(lib, Member(8, 0, [0, 0, 0, 0], 0, 3, [], [], [], [0], 0, 0));
  }

  // Content is returned exactly when the footer bytes of the input agree with it.
  lemma ReturnedExactly(lib: Library, d: seq<Octet>, content: seq<Octet>, filename0: seq<Octet>, error0: string,
                        maxlength: Option<int>)
    ensures var p := ParseMember(lib, d);
            Outcome(lib, p, filename0, error0, maxlength).0 == Data(content) <==>
            && p.Parts? && d[2] == 8 && lib.inflate(p.body, maxlength) == Some(content)
            && lib.crc32(content) == Le32(d[|d| - 8..|d| - 4]) && |content| == Le32(d[|d| - 4..])
  {
    if ParseMember(lib, d).Parts? {
      PartsTile(lib, d);
    }
  }

  lemma DecodedParts(lib: Library, p: Parse, content: seq<Octet>, filename0: seq<Octet>, error0: string,
                     maxlength: Option<int>)
    requires p.Parts? && p.compression == 8 && lib.inflate(p.body, maxlength) == Some(content)
    requires p.crc == lib.crc32(content) && p.size == |content| % 0x1_0000_0000
    ensures var (result, filename, error) := Outcome(lib, p, filename0, error0, maxlength);
            filename == p.filename && (result == Data(content) <==> |content| < 0x1_0000_0000)
  {
  }

  // The flag test is meant to reject reserved bits.  It does so exactly for even
  // flags and 31 without reserved bits, and for odd flags with one.
  lemma FlagTestExactly(flags: Octet)
    ensures (FlagsRejected(flags) <==> flags >= 32) <==>
            if flags < 32 then flags % 2 == 0 || flags == 31 else flags % 2 == 1
  {
  }

  // FTEXT alone is rejected, a reserved bit alone is accepted.
  lemma FlagTestExamples()
    ensures FlagsRejected(1) && !FlagsRejected(32)
  {
  }
}

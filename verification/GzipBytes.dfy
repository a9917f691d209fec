/**
  What gzdecode returns and reports, told from the bytes of its input alone: every
  outcome with its guard, in the order of the checks, and members written out byte by
  byte.  Offsets, flag bits and messages are literals here.
*/
module GzipBytes {
  import opened Gzip
  import opened GzipLaws
  import opened Options

  // Numbers in the input, low byte first.
  function Two(d: seq<Octet>, at: nat): (n: nat)
    requires at + 2 <= |d|
    ensures n == d[at] as int + 256 * d[at + 1] as int
  {
    d[at] as int + 256 * d[at + 1] as int
  }

  function Four(d: seq<Octet>, at: nat): (n: nat)
    requires at + 4 <= |d|
    ensures n == d[at] as int + 256 * d[at + 1] as int + 65536 * d[at + 2] as int + 16777216 * d[at + 3] as int
  {
    Two(d, at) + 65536 * Two(d, at + 2)
  }

  // ------------------------------------------------------ before the fields

  lemma EarlyOutcomes(lib: Library, d: seq<Octet>, filename0: seq<Octet>, error0: string, maxlength: Option<int>)
    ensures |d| < 18 || d[0] != 0x1f || d[1] != 0x8b ==>
              Outcome(lib, ParseMember(lib, d), filename0, error0, maxlength)
              == (Null, filename0, "Not in GZIP format.")
    ensures |d| >= 18 && d[0] == 0x1f && d[1] == 0x8b && d[3] % 2 == 1 && d[3] != 31 ==>
              Outcome(lib, ParseMember(lib, d), filename0, error0, maxlength)
              == (Null, filename0, "Reserved bits not allowed.")
    ensures |d| >= 18 && d[0] == 0x1f && d[1] == 0x8b && (d[3] % 2 == 0 || d[3] == 31)
            && d[3] / 4 % 2 == 1 && |d| < 20 + Two(d, 8) ==>
              Outcome(lib, ParseMember(lib, d), filename0, error0, maxlength) == (False, filename0, error0)
  {
    if |d| >= 18 {
      MagicBytes(d);
    }
  }

  lemma FlagBits(flags: Octet)
    ensures HasFlag(flags, FEXTRA) == (flags / 4 % 2 == 1) && HasFlag(flags, FNAME) == (flags / 8 % 2 == 1)
    ensures HasFlag(flags, FCOMMENT) == (flags / 16 % 2 == 1) && HasFlag(flags, FHCRC) == (flags / 2 % 2 == 1)
    ensures FlagsRejected(flags) == (flags % 2 == 1 && flags != 31)
  {
  }

  lemma MagicBytes(d: seq<Octet>)
    requires |d| >= 18
    ensures d[..2] == [ID1, ID2] <==> d[0] == 0x1f && d[1] == 0x8b
    ensures Le16(d[8..10]) == Two(d, 8)
  {
    assert d[..2] == [d[0], d[1]];
  }

  // -------------------------------------------------------------- the fields

  // The bytes from at to next are a text and its zero, if there is one.
  ghost predicate Holds(d: seq<Octet>, at: nat, present: bool, text: seq<Octet>, next: nat) {
    if present then at <= next && next + 8 <= |d| && d[at..next] == text + [0] && 0 !in text
    else text == [] && next == at
  }

  lemma HoldsMeans(d: seq<Octet>, at: nat, present: bool, text: seq<Octet>, next: nat)
    requires Holds(d, at, present, text, next)
    ensures present ==> at <= next && next + 8 <= |d| && d[at..next] == text + [0] && 0 !in text
    ensures !present ==> text == [] && next == at
  {
  }

  lemma FieldHeld(d: seq<Octet>, at: nat, present: bool) returns (text: seq<Octet>, next: nat)
    requires at + 8 <= |d|
    ensures StringField(d, at, present).Field? <==> !present || 0 in d[at..|d| - 8]
    ensures StringField(d, at, present).Field? ==>
              StringField(d, at, present) == Field(text, next) && Holds(d, at, present, text, next)
  {
    FieldMeans(d, at, present);
    var f := StringField(d, at, present);
    text, next := [], at;
    if f.Field? {
      text, next := f.text, f.next;
    }
  }

  // The extra field, the name and the comment; `name`, `comment` and the cursors a1, a2
  // and a3 are what the bytes hold.
  lemma FieldOutcomes(lib: Library, d: seq<Octet>, filename0: seq<Octet>, error0: string, maxlength: Option<int>)
    returns (a1: nat, name: seq<Octet>, a2: nat, comment: seq<Octet>, a3: nat)
    requires |d| >= 18 && d[0] == 0x1f && d[1] == 0x8b && (d[3] % 2 == 0 || d[3] == 31)
    requires d[3] / 4 % 2 == 1 ==> |d| >= 20 + Two(d, 8)
    ensures a1 == (if d[3] / 4 % 2 == 1 then 12 + Two(d, 8) else 10) && a1 + 8 <= |d|
    ensures d[3] / 8 % 2 == 1 && 0 !in d[a1..|d| - 8] ==>
              Outcome(lib, ParseMember(lib, d), filename0, error0, maxlength) == (False, [], error0)
    ensures d[3] / 8 % 2 == 0 || 0 in d[a1..|d| - 8] ==>
              && Holds(d, a1, d[3] / 8 % 2 == 1, name, a2) && a2 + 8 <= |d|
              && (d[3] / 16 % 2 == 1 && 0 !in d[a2..|d| - 8] ==>
                    Outcome(lib, ParseMember(lib, d), filename0, error0, maxlength) == (False, name, error0))
              && (d[3] / 16 % 2 == 0 || 0 in d[a2..|d| - 8] ==>
                    && Holds(d, a2, d[3] / 16 % 2 == 1, comment, a3) && a3 + 8 <= |d|
                    && ParseMember(lib, d) == ParseRest(lib, d, name, comment, a3))
  {
    MagicBytes(d);
    FlagBits(d[3]);
    a1 := ExtraField(d, HasFlag(d[3], FEXTRA)).next;
    name, a2 := FieldHeld(d, a1, HasFlag(d[3], FNAME));
    comment, a3 := [], 0;
    if StringField(d, a1, HasFlag(d[3], FNAME)).Field? {
      comment, a3 := FieldHeld(d, a2, HasFlag(d[3], FCOMMENT));
    }
  }

  // --------------------------------------------------------- after the fields

  lemma RestOutcomes(lib: Library, d: seq<Octet>, name: seq<Octet>, comment: seq<Octet>, a3: nat,
                     filename0: seq<Octet>, error0: string, maxlength: Option<int>)
    requires |d| >= 18 && a3 + 8 <= |d|
    ensures d[3] / 2 % 2 == 1 && |d| < a3 + 10 ==>
              Outcome(lib, ParseRest(lib, d, name, comment, a3), filename0, error0, maxlength)
              == (False, name, error0)
    ensures d[3] / 2 % 2 == 1 && |d| >= a3 + 10 && Two(d, a3) != lib.crc32(d[..a3]) % 65536 ==>
              Outcome(lib, ParseRest(lib, d, name, comment, a3), filename0, error0, maxlength)
              == (False, name, "Header checksum failed.")
  {
    if d[3] / 2 % 2 == 1 && |d| >= a3 + 10 {
      TwoBytes(d, a3);
    }
  }

  lemma TwoBytes(d: seq<Octet>, at: nat)
    requires at + 2 <= |d|
    ensures Le16(d[at..at + 2]) == Two(d, at)
  {
  }

  lemma FourBytes(d: seq<Octet>, at: nat)
    requires at + 4 <= |d|
    ensures Le32(d[at..at + 4]) == Four(d, at)
  {
    var s := d[at..at + 4];
    assert s[..2][0] == d[at] && s[..2][1] == d[at + 1] && s[2..][0] == d[at + 2] && s[2..][1] == d[at + 3];
  }

  // With the header checksum in order, when its flag is set; the body starts at `start`.
  lemma BodyOutcomes(lib: Library, d: seq<Octet>, name: seq<Octet>, comment: seq<Octet>, a3: nat, start: nat,
                     filename0: seq<Octet>, error0: string, maxlength: Option<int>)
    requires |d| >= 18 && a3 + 8 <= |d| && start == (if d[3] / 2 % 2 == 1 then a3 + 2 else a3) && start + 8 <= |d|
    requires d[3] / 2 % 2 == 1 ==> Two(d, a3) == lib.crc32(d[..a3]) % 65536
    ensures |d| == start + 8 ==>
              Outcome(lib, ParseRest(lib, d, name, comment, a3), filename0, error0, maxlength)
              == (Null, name, error0)
    ensures |d| > start + 8 && d[2] != 8 ==>
              Outcome(lib, ParseRest(lib, d, name, comment, a3), filename0, error0, maxlength)
              == (False, name, "Unknown compression method.")
    ensures var inflated := lib.inflate(d[start..|d| - 8], maxlength);
            var content := if inflated.Some? then inflated.value else [];
            var crcOk := lib.crc32(content) == Four(d, |d| - 8);
            var lenOk := |content| == Four(d, |d| - 4);
            var outcome := Outcome(lib, ParseRest(lib, d, name, comment, a3), filename0, error0, maxlength);
            |d| > start + 8 && d[2] == 8 ==>
              && (crcOk && lenOk && inflated.Some? ==> outcome == (Data(content), name, error0))
              && (crcOk && lenOk && inflated.None? ==> outcome == (False, name, error0))
              && (crcOk && !lenOk ==> outcome == (False, name, "Length check FAILED. "))
              && (!crcOk && lenOk ==> outcome == (False, name, "Checksum FAILED."))
              && (!crcOk && !lenOk ==> outcome == (False, name, "Length check FAILED. Checksum FAILED."))
  {
    if d[3] / 2 % 2 == 1 {
      TwoBytes(d, a3);
    }
    FourBytes(d, |d| - 8);
    FourBytes(d, |d| - 4);
    assert d[|d| - 4..] == d[|d| - 4..|d| - 4 + 4];
    assert "Length check FAILED. " + "" == "Length check FAILED. ";
    assert "" + "Checksum FAILED." == "Checksum FAILED.";
    assert "Length check FAILED. " + "Checksum FAILED." == "Length check FAILED. Checksum FAILED.";
  }

  // ------------------------------------------------------------ every outcome

  // The messages differ already in length.
  lemma MessageLengths()
    ensures |"Not in GZIP format."| == 19 && |"Reserved bits not allowed."| == 26 && |"Header checksum failed."| == 23
    ensures |"Unknown compression method."| == 27 && |"Length check FAILED. "| == 21 && |"Checksum FAILED."| == 16
    ensures |"Length check FAILED. Checksum FAILED."| == 37
  {
  }

  // Which result a call gives with which message, when there is none before: content
  // comes with none, and no other message than the first two comes with null.
  lemma MessageLaws(lib: Library, d: seq<Octet>, filename0: seq<Octet>, error0: string, maxlength: Option<int>)
    ensures Outcome(lib, ParseMember(lib, d), filename0, error0, maxlength).0.Data? ==>
              Outcome(lib, ParseMember(lib, d), filename0, error0, maxlength).2 == error0
    ensures var (r, f, e) := Outcome(lib, ParseMember(lib, d), filename0, "", maxlength);
            && (e == "Not in GZIP format." <==> |d| < 18 || d[0] != 0x1f || d[1] != 0x8b)
            && (e == "Reserved bits not allowed." <==>
                |d| >= 18 && d[0] == 0x1f && d[1] == 0x8b && d[3] % 2 == 1 && d[3] != 31)
            && (e == "Not in GZIP format." || e == "Reserved bits not allowed." ==> r == Null && f == filename0)
            && (e == "Header checksum failed." ==> r == False && d[3] / 2 % 2 == 1)
            && (e == "Unknown compression method." ==> r == False && d[2] != 8)
            && (e == "Length check FAILED. " || e == "Checksum FAILED." || e == "Length check FAILED. Checksum FAILED."
                ==> r == False && d[2] == 8)
  {
    MessageLengths();
    EarlyOutcomes(lib, d, filename0, "", maxlength);
    EarlyOutcomes(lib, d, filename0, error0, maxlength);
    if |d| >= 18 && d[0] == 0x1f && d[1] == 0x8b && (d[3] % 2 == 0 || d[3] == 31)
       && (d[3] / 4 % 2 == 1 ==> |d| >= 20 + Two(d, 8)) {
      LateMessages(lib, d, filename0, error0, maxlength);
      LateMessages(lib, d, filename0, "", maxlength);
    }
  }

  lemma LateMessages(lib: Library, d: seq<Octet>, filename0: seq<Octet>, error0: string, maxlength: Option<int>)
    requires |d| >= 18 && d[0] == 0x1f && d[1] == 0x8b && (d[3] % 2 == 0 || d[3] == 31)
    requires d[3] / 4 % 2 == 1 ==> |d| >= 20 + Two(d, 8)
    ensures var (r, f, e) := Outcome(lib, ParseMember(lib, d), filename0, error0, maxlength);
            || e == error0
            || (r == False && e == "Header checksum failed." && d[3] / 2 % 2 == 1)
            || (r == False && e == "Unknown compression method." && d[2] != 8)
            || (r == False && |e| in {16, 21, 37} && d[2] == 8)
    ensures Outcome(lib, ParseMember(lib, d), filename0, error0, maxlength).0.Data? ==>
              Outcome(lib, ParseMember(lib, d), filename0, error0, maxlength).2 == error0
  {
    MessageLengths();
    var a1, name, a2, comment, a3 := FieldOutcomes(lib, d, filename0, error0, maxlength);
    if (d[3] / 8 % 2 == 0 || 0 in d[a1..|d| - 8]) && (d[3] / 16 % 2 == 0 || 0 in d[a2..|d| - 8]) {
      RestMessages(lib, d, name, comment, a3, filename0, error0, maxlength);
    }
  }

  lemma RestMessages(lib: Library, d: seq<Octet>, name: seq<Octet>, comment: seq<Octet>, a3: nat,
                     filename0: seq<Octet>, error0: string, maxlength: Option<int>)
    requires |d| >= 18 && a3 + 8 <= |d|
    ensures var (r, f, e) := Outcome(lib, ParseRest(lib, d, name, comment, a3), filename0, error0, maxlength);
            || e == error0
            || (r == False && e == "Header checksum failed." && d[3] / 2 % 2 == 1)
            || (r == False && e == "Unknown compression method." && d[2] != 8)
            || (r == False && |e| in {16, 21, 37} && d[2] == 8)
    ensures Outcome(lib, ParseRest(lib, d, name, comment, a3), filename0, error0, maxlength).0.Data? ==>
              Outcome(lib, ParseRest(lib, d, name, comment, a3), filename0, error0, maxlength).2 == error0
  {
    MessageLengths();
    RestOutcomes(lib, d, name, comment, a3, filename0, error0, maxlength);
    var start := if d[3] / 2 % 2 == 1 then a3 + 2 else a3;
    if d[3] / 2 % 2 == 1 ==> |d| >= a3 + 10 && Two(d, a3) == lib.crc32(d[..a3]) % 65536 {
      BodyOutcomes(lib, d, name, comment, a3, start, filename0, error0, maxlength);
    }
  }

  // ------------------------------------------------- members, byte by byte

  // A member with name, comment and header checksum, each if wanted, as flags 8, 16 and 2
  // announce them: all of its parts are read back.
  lemma WrittenOut(lib: Library, mtime: seq<Octet>, xfl: Octet, os: Octet, hasName: bool, name: seq<Octet>,
                   hasComment: bool, comment: seq<Octet>, hasCrc: bool, body: seq<Octet>,
                   crc: seq<Octet>, size: seq<Octet>)
    requires |mtime| == 4 && 0 !in name && 0 !in comment && body != [] && |crc| == |size| == 4
    requires (!hasName ==> name == []) && (!hasComment ==> comment == [])
    ensures var flags := (if hasName then 8 else 0) + (if hasComment then 16 else 0) + (if hasCrc then 2 else 0);
            var header := [0x1f, 0x8b, 8, flags] + mtime + [xfl, os]
                          + (if hasName then name + [0] else []) + (if hasComment then comment + [0] else []);
            var sum := lib.crc32(header) % 65536;
            var d := header + (if hasCrc then [sum % 256, sum / 256] else []) + body + crc + size;
            ParseMember(lib, d) == Parts(8, name, comment, body, Four(crc, 0), Four(size, 0))
  {
    var flags := (if hasName then 8 else 0) + (if hasComment then 16 else 0) + (if hasCrc then 2 else 0);
    WantedFlags(flags, hasName, hasComment, hasCrc);
    WholeNumbers(crc, size);
    var m := Member(8, flags, mtime, xfl, os, [], name, comment, body, Four(crc, 0), Four(size, 0));
    HeaderWritten(m, hasName, hasComment);
    LayoutWritten(lib, m, crc, size, hasCrc);
    RecoveredWhen(lib, m);
  }

  lemma WantedFlags(flags: Octet, hasName: bool, hasComment: bool, hasCrc: bool)
    requires flags as int == (if hasName then 8 else 0) + (if hasComment then 16 else 0) + (if hasCrc then 2 else 0)
    ensures HasFlag(flags, FNAME) == hasName && HasFlag(flags, FCOMMENT) == hasComment
    ensures HasFlag(flags, FHCRC) == hasCrc && !HasFlag(flags, FEXTRA) && !FlagsRejected(flags)
  {
  }

  lemma WholeNumbers(crc: seq<Octet>, size: seq<Octet>)
    requires |crc| == |size| == 4
    ensures Four(crc, 0) < 0x1_0000_0000 && Bytes32(Four(crc, 0)) == crc
    ensures Four(size, 0) < 0x1_0000_0000 && Bytes32(Four(size, 0)) == size
  {
    assert crc[0..4] == crc && size[0..4] == size;
    FourBytes(crc, 0);
    FourBytes(size, 0);
    Bytes32Back(crc);
    Bytes32Back(size);
  }

  lemma HeaderWritten(m: Member, hasName: bool, hasComment: bool)
    requires m.extra == [] && !HasFlag(m.flags, FEXTRA)
    requires HasFlag(m.flags, FNAME) == hasName && HasFlag(m.flags, FCOMMENT) == hasComment
    ensures Header(m) == [0x1f, 0x8b, m.compression, m.flags] + m.mtime + [m.xfl, m.os]
                         + (if hasName then m.name + [0] else []) + (if hasComment then m.comment + [0] else [])
  {
    assert FixedPart(m) + [] == FixedPart(m);
  }

  lemma LayoutWritten(lib: Library, m: Member, crc: seq<Octet>, size: seq<Octet>, hasCrc: bool)
    requires |m.extra| < 65536 && m.crc < 0x1_0000_0000 && m.size < 0x1_0000_0000
    requires Bytes32(m.crc) == crc && Bytes32(m.size) == size && HasFlag(m.flags, FHCRC) == hasCrc
    ensures var sum := lib.crc32(Header(m)) % 65536;
            Layout(lib, m) == Header(m) + (if hasCrc then [sum % 256, sum / 256] else []) + m.body + crc + size
  {
  }

  // With an extra field, flag 4, the length is found in XFL and OS or the call fails.
  lemma ExtraWrittenOut(lib: Library, mtime: seq<Octet>, xfl: Octet, os: Octet, extra: seq<Octet>, body: seq<Octet>,
                        crc: seq<Octet>, size: seq<Octet>)
    requires |mtime| == 4 && |extra| < 65536 && body != [] && |crc| == |size| == 4
    ensures var n := |extra|;
            var d := [0x1f, 0x8b, 8, 4] + mtime + [xfl, os] + [n % 256, n / 256] + extra + body + crc + size;
            ParseMember(lib, d) == Parts(8, [], [], body, Four(crc, 0), Four(size, 0))
            <==> xfl as int + 256 * os as int == n
  {
    FlagBits(4);
    WholeNumbers(crc, size);
    var m := Member(8, 4, mtime, xfl, os, extra, [], [], body, Four(crc, 0), Four(size, 0));
    RecoveredExactly(lib, m);
    LayoutWritten(lib, m, crc, size, false);
    ExtraHeader(m);
    assert Header(m) + [] == Header(m);
  }

  lemma ExtraHeader(m: Member)
    requires m.flags == 4 && |m.extra| < 65536
    ensures Header(m) == [0x1f, 0x8b, m.compression, 4] + m.mtime + [m.xfl, m.os]
                         + [|m.extra| % 256, |m.extra| / 256] + m.extra
  {
    FlagBits(4);
  }
}

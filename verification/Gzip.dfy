/**
  The gzip member splitter gzdecode of php/mcxindia_BhavCopyCommoditywiseArchive.php,
  against the member layout of section 2.3 of RFC 1952.

  crc32 and gzinflate stay opaque: they are the two functions of a Library value.
*/
module Gzip {
  import opened Options

  type Octet = x: int | 0 <= x < 256

  // inflate takes the compressed body and $maxlength (None for null); None is a failure.
  datatype Library = Library(crc32: seq<Octet> -> nat, inflate: (seq<Octet>, Option<int>) -> Option<seq<Octet>>)

  // The PHP results: null, false, or a string.
  datatype Result = Null | False | Data(bytes: seq<Octet>)

  const ID1: Octet := 0x1f
  const ID2: Octet := 0x8b

  // $flags & mask, for a mask of one bit.
  predicate HasFlag(flags: Octet, mask: int)
    requires mask > 0
  {
    flags / mask % 2 == 1
  }

  const FTEXT := 1
  const FHCRC := 2
  const FEXTRA := 4
  const FNAME := 8
  const FCOMMENT := 16

  // `$flags & 31 != $flags` is `$flags & (31 != $flags)`: bit 0, unless flags is 31.
  predicate FlagsRejected(flags: Octet) {
    flags != 31 && HasFlag(flags, FTEXT)
  }

  // unpack("v") and unpack("V")
  function Le16(s: seq<Octet>): nat
    requires |s| == 2
  {
    s[0] as int + 256 * s[1] as int
  }

  function Le32(s: seq<Octet>): nat
    requires |s| == 4
  {
    Le16(s[..2]) + 65536 * Le16(s[2..])
  }

  function Bytes16(n: nat): (s: seq<Octet>)
    requires n < 65536
    ensures |s| == 2 && Le16(s) == n
  {
    [n % 256, n / 256]
  }

  function Bytes32(n: nat): (s: seq<Octet>)
    requires n < 0x1_0000_0000
    ensures |s| == 4 && Le32(s) == n
  {
    var low, high := Bytes16(n % 65536), Bytes16(n / 65536);
    assert (low + high)[..2] == low && (low + high)[2..] == high;
    low + high
  }

  // strpos(s, chr(0)), -1 for false
  function FindZero(s: seq<Octet>): (i: int)
    ensures -1 <= i < |s|
    ensures i == -1 ==> 0 !in s
    ensures i >= 0 ==> s[i] == 0 && 0 !in s[..i]
  {
    if s == [] then -1
    else if s[0] == 0 then 0
    else var i := FindZero(s[1..]); if i == -1 then -1 else i + 1
  }

  // ------------------------------------------------------ what a parse yields

  // The parts of a member, or the result, the message ("" for none) and the file
  // name (None before it is assigned) of a call that gives up.
  datatype Parse =
    | GaveUp(result: Result, error: string, nameSet: Option<seq<Octet>>)
    | Parts(compression: Octet, filename: seq<Octet>, comment: seq<Octet>, body: seq<Octet>, crc: nat, size: nat)

  // A zero-terminated field at the cursor: its text and the cursor after it.
  datatype Field = BadField | Field(text: seq<Octet>, next: nat)

  function StringField(d: seq<Octet>, at: nat, present: bool): (f: Field)
    requires at + 8 <= |d|
    ensures f.Field? ==> at <= f.next && f.next + 8 <= |d|
  {
    if !present then Field([], at)
    else if |d| - at - 1 < 8 then BadField
    else
      var n := FindZero(d[at..]);
      if n == -1 || |d| - at - n - 1 < 8 then BadField else Field(d[at..at + n], at + n + 1)
  }

  function TextPart(text: seq<Octet>, present: bool): seq<Octet> {
    if present then text + [0] else []
  }

  // The call gives up when no zero byte is left before the last eight; otherwise the
  // bytes up to the cursor are the text and its zero.
  lemma FieldMeans(d: seq<Octet>, at: nat, present: bool)
    requires at + 8 <= |d|
    ensures var f := StringField(d, at, present);
            && (f.Field? <==> !present || 0 in d[at..|d| - 8])
            && (f.Field? ==> at <= f.next <= |d| - 8 && d[at..f.next] == TextPart(f.text, present)
                             && 0 !in f.text && (!present ==> f.text == []))
  {
    var n := FindZero(d[at..]);
    var s := d[at..|d| - 8];
    assert s == d[at..][..|s|];
    if n == -1 {
      NoZeroBefore(d[at..], |s|);
    } else if n < |s| {
      assert s[n] == 0;
      assert d[at..at + n] == d[at..][..n];
      assert d[at..at + n + 1] == d[at..at + n] + [0];
    } else {
      NoZeroBefore(d[at..][..n], |s|);
      assert d[at..][..n][..|s|] == s;
    }
  }

  lemma NoZeroBefore(s: seq<Octet>, k: nat)
    requires 0 !in s && k <= |s|
    ensures 0 !in s[..k]
  {
  }

  // The optional extra field; its length is taken from offset 8.
  function ExtraField(d: seq<Octet>, present: bool): (f: Field)
    requires 18 <= |d|
    ensures f.Field? ==> 10 <= f.next && f.next + 8 <= |d|
  {
    if !present then Field([], 10)
    else if |d| - 10 - 2 < 8 then BadField
    else
      var n := Le16(d[8..10]);
      if |d| - 10 - 2 - n < 8 then BadField else Field(d[10..10 + n], 12 + n)
  }

  function ParseMember(lib: Library, d: seq<Octet>): Parse {
    if |d| < 18 || d[..2] != [ID1, ID2] then GaveUp(Null, "Not in GZIP format.", None)
    else if FlagsRejected(d[3]) then GaveUp(Null, "Reserved bits not allowed.", None)
    else
      var flags := d[3];
      match ExtraField(d, HasFlag(flags, FEXTRA))
      case BadField => GaveUp(False, "", None)
      case Field(_, at1) =>
        match StringField(d, at1, HasFlag(flags, FNAME))
        case BadField => GaveUp(False, "", Some([]))
        case Field(name, at2) =>
          match StringField(d, at2, HasFlag(flags, FCOMMENT))
          case BadField => GaveUp(False, "", Some(name))
          case Field(comment, at3) => ParseRest(lib, d, name, comment, at3)
  }

  // From the header checksum on.
  function ParseRest(lib: Library, d: seq<Octet>, name: seq<Octet>, comment: seq<Octet>, at: nat): Parse
    requires 18 <= |d| && at + 8 <= |d|
  {
    if HasFlag(d[3], FHCRC) && |d| - at - 2 < 8 then GaveUp(False, "", Some(name))
    else if HasFlag(d[3], FHCRC) && Le16(d[at..at + 2]) != lib.crc32(d[..at]) % 65536 then
      GaveUp(False, "Header checksum failed.", Some(name))
    else
      var start := if HasFlag(d[3], FHCRC) then at + 2 else at;
      if |d| - start - 8 < 1 then GaveUp(Null, "", Some(name))
      else Parts(d[2], name, comment, d[start..|d| - 8], Le32(d[|d| - 8..|d| - 4]), Le32(d[|d| - 4..]))
  }

  // The last step: decompress and compare with the footer.
  function Decompress(lib: Library, p: Parse, maxlength: Option<int>): (Result, string)
    requires p.Parts?
  {
    if p.compression != 8 then (False, "Unknown compression method.")
    else
      var inflated := lib.inflate(p.body, maxlength);
      var content := if inflated.Some? then inflated.value else [];
      var crcOk, lenOk := lib.crc32(content) == p.crc, p.size == |content|;
      if !lenOk || !crcOk then
        (False, (if lenOk then "" else "Length check FAILED. ") + (if crcOk then "" else "Checksum FAILED."))
      else (if inflated.Some? then Data(content) else False, "")
  }

  // ------------------------------------------------------------- the program

  // A field of type C string at the cursor, if its flag is set; ok is false for `return false`.
  method ReadString(data: seq<Octet>, headerlen: nat, present: bool) returns (ok: bool, text: seq<Octet>, next: nat)
    requires headerlen + 8 <= |data|
    ensures StringField(data, headerlen, present) == if ok then Field(text, next) else BadField
    ensures ok <==> !present || 0 in data[headerlen..|data| - 8]
    ensures ok ==> headerlen <= next <= |data| - 8 && data[headerlen..next] == TextPart(text, present) && 0 !in text
    ensures !ok || !present ==> text == []
  {
    FieldMeans(data, headerlen, present);
    var len := |data|;
    text, next := [], headerlen;
    if present {
      if len - headerlen - 1 < 8 {
        return false, text, next;
      }
      var textlen := FindZero(data[headerlen..]);
      if textlen == -1 || len - headerlen - textlen - 1 < 8 {
        return false, text, next;
      }
      text := data[headerlen..headerlen + textlen];
      next := headerlen + textlen + 1;
    }
    ok := true;
  }

  // The extra field, if its flag is set.
  method ReadExtra(data: seq<Octet>, present: bool) returns (ok: bool, headerlen: nat)
    requires 18 <= |data|
    ensures ok <==> ExtraField(data, present).Field?
    ensures ok ==> headerlen == ExtraField(data, present).next
    ensures ok <==> !present || 12 + Le16(data[8..10]) <= |data| - 8
    ensures ok ==> headerlen == if present then 12 + Le16(data[8..10]) else 10
  {
    var len := |data|;
    headerlen := 10;
    if present {
      if len - headerlen - 2 < 8 {
        return false, headerlen;
      }
      var extralen := Le16(data[8..10]);
      if len - headerlen - 2 - extralen < 8 {
        return false, headerlen;
      }
      var extra := data[10..10 + extralen];
      headerlen := headerlen + 2 + extralen;
    }
    ok := true;
  }

  // What a call returns and leaves in $filename and $error, by what it parsed.
  // Both are passed by reference: what is not assigned stays.
  function Outcome(lib: Library, p: Parse, filename0: seq<Octet>, error0: string, maxlength: Option<int>)
    : (Result, seq<Octet>, string)
  {
    match p
    case GaveUp(r, e, name) =>
      (r, if name.Some? then name.value else filename0, if e == "" then error0 else e)
    case Parts(_, name, _, _, _, _) =>
      var (r, e) := Decompress(lib, p, maxlength);
      (r, name, if e == "" then error0 else e)
  }

  method GzDecode(lib: Library, data: seq<Octet>, filename0: seq<Octet>, error0: string, maxlength: Option<int>)
    returns (result: Result, filename: seq<Octet>, error: string)
    ensures (result, filename, error) == Outcome(lib, ParseMember(lib, data), filename0, error0, maxlength)
  {
    filename, error := filename0, error0;
    var len := |data|;
    if len < 18 || data[..2] != [ID1, ID2] {
      error := "Not in GZIP format.";
      return Null, filename, error;
    }
    var compression, flags := data[2], data[3];
    if flags != 31 && HasFlag(flags, FTEXT) {
      error := "Reserved bits not allowed.";
      return Null, filename, error;
    }
    var ok, headerlen := ReadExtra(data, HasFlag(flags, FEXTRA));
    if !ok {
      return False, filename, error;
    }
    ok, filename, headerlen := ReadString(data, headerlen, HasFlag(flags, FNAME));
    if !ok {
      return False, filename, error;
    }
    var comment;
    ok, comment, headerlen := ReadString(data, headerlen, HasFlag(flags, FCOMMENT));
    if !ok {
      return False, filename, error;
    }
    result, error := ReadRest(lib, data, filename, comment, headerlen, error, maxlength);
  }

  // From the header checksum on: footer, body, decompression, comparison.
  method ReadRest(lib: Library, data: seq<Octet>, ghost name: seq<Octet>, comment: seq<Octet>, headerlen0: nat,
                  error0: string, maxlength: Option<int>)
    returns (result: Result, error: string)
    requires 18 <= |data| && headerlen0 + 8 <= |data|
    ensures forall before ::
              (result, name, error) ==
              Outcome(lib, ParseRest(lib, data, name, comment, headerlen0), before, error0, maxlength)
  {
    error := error0;
    var len, headerlen := |data|, headerlen0;
    if HasFlag(data[3], FHCRC) {
      if len - headerlen - 2 < 8 {
        return False, error;
      }
      var calccrc := lib.crc32(data[..headerlen]) % 65536;
      var headercrc := Le16(data[headerlen..headerlen + 2]);
      if headercrc != calccrc {
        error := "Header checksum failed.";
        return False, error;
      }
      headerlen := headerlen + 2;
    }
    var datacrc := Le32(data[len - 8..len - 4]);
    var isize := Le32(data[len - 4..]);
    var bodylen := len - headerlen - 8;
    if bodylen < 1 {
      return Null, error;
    }
    var body := data[headerlen..headerlen + bodylen];
    if data[2] != 8 {
      error := "Unknown compression method.";
      return False, error;
    }
    var inflated := lib.inflate(body, maxlength);
    var content := if inflated.Some? then inflated.value else [];
    var crcOk := lib.crc32(content) == datacrc;
    var lenOk := isize == |content|;
    if !lenOk || !crcOk {
      error := (if lenOk then "" else "Length check FAILED. ") + (if crcOk then "" else "Checksum FAILED.");
      return False, error;
    }
    result := if inflated.Some? then Data(content) else False;
  }

  // -------------------------------------------------- members per RFC 1952

  // The optional fields are meant by their flag bits; absent ones are empty.
  datatype Member = Member(compression: Octet, flags: Octet, mtime: seq<Octet>, xfl: Octet, os: Octet,
                           extra: seq<Octet>, name: seq<Octet>, comment: seq<Octet>, body: seq<Octet>,
                           crc: nat, size: nat)

  ghost predicate WellFormed(m: Member) {
    && |m.mtime| == 4
    && |m.extra| < 65536 && (!HasFlag(m.flags, FEXTRA) ==> m.extra == [])
    && 0 !in m.name && (!HasFlag(m.flags, FNAME) ==> m.name == [])
    && 0 !in m.comment && (!HasFlag(m.flags, FCOMMENT) ==> m.comment == [])
    && m.crc < 0x1_0000_0000 && m.size < 0x1_0000_0000
  }

  function FixedPart(m: Member): seq<Octet> {
    [ID1, ID2, m.compression, m.flags] + m.mtime + [m.xfl, m.os]
  }

  function ExtraPart(m: Member): seq<Octet>
    requires |m.extra| < 65536
  {
    if HasFlag(m.flags, FEXTRA) then Bytes16(|m.extra|) + m.extra else []
  }

  function Header(m: Member): seq<Octet>
    requires |m.extra| < 65536
  {
    FixedPart(m) + ExtraPart(m) + TextPart(m.name, HasFlag(m.flags, FNAME))
      + TextPart(m.comment, HasFlag(m.flags, FCOMMENT))
  }

  function CrcPart(lib: Library, m: Member): seq<Octet>
    requires |m.extra| < 65536
  {
    if HasFlag(m.flags, FHCRC) then Bytes16(lib.crc32(Header(m)) % 65536) else []
  }

  function Layout(lib: Library, m: Member): seq<Octet>
    requires |m.extra| < 65536 && m.crc < 0x1_0000_0000 && m.size < 0x1_0000_0000
  {
    Header(m) + CrcPart(lib, m) + m.body + Bytes32(m.crc) + Bytes32(m.size)
  }
}

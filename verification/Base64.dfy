/**
  Base64 codec of cpp/email_with_curl/main.cpp.

  `Encode` and `Decode` are the reference definitions: they follow section 4 of
  RFC 4648, which concatenates three octets into one 24-bit group and reads it as
  four 6-bit groups.  The methods follow the program: masks and shifts on single
  bytes, over two small buffers that are filled one input element at a time.

  An unsigned char is eight bits, so casting a sum back to unsigned char is plain bv8
  arithmetic.
*/
module Base64 {
  import opened Groups
  import opened MachineInt

  // The box keeps bit-level facts out of proofs about strings.
  datatype Byte = Byte(bits: bv8)

  // ---------------------------------------------------------------- alphabet

  const UPPER: string := "ABCDEFGHIJKLMNOPQRSTUVWXYZ"
  const LOWER: string := "abcdefghijklmnopqrstuvwxyz"
  const DIGITS: string := "0123456789+/"
  const BASE64_CHARS: string := UPPER + LOWER + DIGITS

  const PAD := Byte(61)       // '='
  const NOT_FOUND: bv8 := 255 // std::string::npos cast to unsigned char

  // BASE64_CHARS[k]; SymbolIsTable relates it to the table.
  function Symbol(k: bv8): Byte {
    Byte(if k < 26 then k + 65
         else if k < 52 then k + 71
         else if k < 62 then k - 4
         else if k == 62 then 43
         else 47)
  }

  // BASE64_CHARS.find(c) cast to unsigned char.
  function Find(b: Byte): bv8 {
    var c := b.bits;
    if 65 <= c <= 90 then c - 65
    else if 97 <= c <= 122 then c - 71
    else if 48 <= c <= 57 then c + 4
    else if c == 43 then 62
    else if c == 47 then 63
    else NOT_FOUND
  }

  // isalnum(c) || c == '+' || c == '/'
  predicate IsBase64(b: Byte) {
    var c := b.bits;
    65 <= c <= 90 || 97 <= c <= 122 || 48 <= c <= 57 || c == 43 || c == 47
  }

  lemma TableCode(i: nat)
    requires i < 64
    ensures |BASE64_CHARS| == 64
    ensures BASE64_CHARS[i] as int ==
            if i < 26 then i + 65 else if i < 52 then i + 71 else if i < 62 then i - 4 else if i == 62 then 43 else 47
  {
    var u, l, d := UPPER, LOWER, DIGITS;
    assert |u| == 26 && |l| == 26 && |d| == 12;
    assert BASE64_CHARS[i] == if i < 26 then u[i] else if i < 52 then l[i - 26] else d[i - 52];
  }

  // Symbol reads the table, and Find inverts it and answers NOT_FOUND elsewhere.
  lemma SymbolIsTable(k: bv8)
    requires k < 64
    ensures |BASE64_CHARS| == 64 && Symbol(k).bits as int == BASE64_CHARS[k as int] as int
    ensures IsBase64(Symbol(k)) && Find(Symbol(k)) == k
  {
    TableCode(k as int);
  }

  lemma FindIsTableSearch(c: Byte)
    ensures IsBase64(c) <==> Find(c) < 64
    ensures IsBase64(c) ==> Symbol(Find(c)) == c
    ensures !IsBase64(c) ==> Find(c) == NOT_FOUND
  {
  }

  // ------------------------------------------------- reference: 24-bit groups

  function OctetGroup(a: Byte, b: Byte, c: Byte): bv24 {
    (a.bits as bv24 << 16) | (b.bits as bv24 << 8) | (c.bits as bv24)
  }

  function SextetGroup(p: bv8, q: bv8, r: bv8, s: bv8): bv24 {
    (p as bv24 << 18) | (q as bv24 << 12) | (r as bv24 << 6) | (s as bv24)
  }

  function Octets(w: bv24): seq<Byte> {
    [Byte(((w >> 16) & 0xff) as bv8), Byte(((w >> 8) & 0xff) as bv8), Byte((w & 0xff) as bv8)]
  }

  function Sextets(w: bv24): (bv8, bv8, bv8, bv8) {
    (((w >> 18) & 0x3f) as bv8, ((w >> 12) & 0x3f) as bv8, ((w >> 6) & 0x3f) as bv8, (w & 0x3f) as bv8)
  }

  // The four symbols of three octets, and the three octets of four 6-bit values.
  function EncodeTriple(a: Byte, b: Byte, c: Byte): (g: seq<Byte>)
    ensures |g| == 4
  {
    var s := Sextets(OctetGroup(a, b, c));
    [Symbol(s.0), Symbol(s.1), Symbol(s.2), Symbol(s.3)]
  }

  function DecodeQuad(p: bv8, q: bv8, r: bv8, s: bv8): (g: seq<Byte>)
    ensures |g| == 3
  {
    Octets(SextetGroup(p, q, r, s))
  }

  // The symbols of one group; the octets that a short group lacks count as zero.
  function EncodeGroup(b: seq<Byte>): seq<Byte> {
    if |b| == 0 then []
    else if |b| == 1 then EncodeTriple(b[0], Byte(0), Byte(0))[..2]
    else if |b| == 2 then EncodeTriple(b[0], b[1], Byte(0))[..3]
    else EncodeTriple(b[0], b[1], b[2])
  }

  // The octets of one group of symbols; a short group yields its whole octets only.
  function DecodeGroup(s: seq<Byte>): seq<Byte> {
    if |s| < 2 then []
    else if |s| == 2 then DecodeQuad(Find(s[0]), Find(s[1]), 0, 0)[..1]
    else if |s| == 3 then DecodeQuad(Find(s[0]), Find(s[1]), Find(s[2]), 0)[..2]
    else DecodeQuad(Find(s[0]), Find(s[1]), Find(s[2]), Find(s[3]))
  }

  function EncodeSymbols(b: seq<Byte>): seq<Byte> {
    Grouped(3, EncodeGroup, b)
  }

  function DecodeSymbols(s: seq<Byte>): seq<Byte> {
    Grouped(4, DecodeGroup, s)
  }

  function Padding(n: nat): seq<Byte> {
    if n % 3 == 1 then [PAD, PAD] else if n % 3 == 2 then [PAD] else []
  }

  function Encode(b: seq<Byte>): seq<Byte> {
    EncodeSymbols(b) + Padding(|b|)
  }

  ghost predicate AllSymbols(s: seq<Byte>) {
    forall i {:trigger IsBase64(s[i])} :: 0 <= i < |s| ==> IsBase64(s[i])
  }

  // Length of the longest prefix that holds alphabet characters only.
  function AlphabetPrefix(s: seq<Byte>): (k: nat)
    ensures k <= |s|
    ensures AllSymbols(s[..k])
    ensures k < |s| ==> !IsBase64(s[k])
  {
    if s == [] || !IsBase64(s[0]) then 0
    else 1 + AlphabetPrefix(s[1..])
  }

  function Decode(s: seq<Byte>): seq<Byte> {
    DecodeSymbols(s[..AlphabetPrefix(s)])
  }

  // ------------------------------------------- the byte expressions as groups

  lemma SplitIsSextets(x: Byte, y: Byte, z: Byte)
    ensures Sextets(OctetGroup(x, y, z)) ==
            ((x.bits & 0xfc) >> 2,
             ((x.bits & 0x03) << 4) + ((y.bits & 0xf0) >> 4),
             ((y.bits & 0x0f) << 2) + ((z.bits & 0xc0) >> 6),
             z.bits & 0x3f)
  {
  }

  function SplitBytes(x: Byte, y: Byte, z: Byte): seq<Byte> {
    [Byte((x.bits & 0xfc) >> 2), Byte(((x.bits & 0x03) << 4) + ((y.bits & 0xf0) >> 4)),
     Byte(((y.bits & 0x0f) << 2) + ((z.bits & 0xc0) >> 6)), Byte(z.bits & 0x3f)]
  }

  // The symbols of both encoder paths: those of the first n octets, when zeros follow.
  lemma SplitGroup(x: Byte, y: Byte, z: Byte, n: nat)
    requires 1 <= n <= 3 && (n < 3 ==> z == Byte(0)) && (n < 2 ==> y == Byte(0))
    ensures SymbolsOf(SplitBytes(x, y, z))[..n + 1] == EncodeGroup([x, y, z][..n])
  {
    SplitIsSextets(x, y, z);
    assert SymbolsOf(SplitBytes(x, y, z)) == EncodeTriple(x, y, z);
  }

  function SymbolsOf(v: seq<Byte>): (s: seq<Byte>)
    ensures |s| == |v| && forall k :: 0 <= k < |v| ==> s[k] == Symbol(v[k].bits)
  {
    seq(|v|, k requires 0 <= k < |v| => Symbol(v[k].bits))
  }

  function JoinBytes(p: bv8, q: bv8, r: bv8, s: bv8): seq<Byte> {
    [Byte((p << 2) + ((q & 0x30) >> 4)), Byte(((q & 0xf) << 4) + ((r & 0x3c) >> 2)), Byte(((r & 0x3) << 6) + s)]
  }

  lemma JoinIsOctets(p: bv8, q: bv8, r: bv8, s: bv8)
    requires p < 64 && q < 64 && r < 64 && s < 64
    ensures JoinBytes(p, q, r, s) == DecodeQuad(p, q, r, s)
  {
  }

  // Whatever the unused slots of the buffer hold (the program leaves NOT_FOUND
  // there), a short group emits the octets of the group with zeros in their place.
  lemma UnusedSlotsDoNotShow(p: bv8, q: bv8, r: bv8, x: bv8, y: bv8)
    requires p < 64 && q < 64 && r < 64
    ensures JoinBytes(p, q, x, y)[..1] == DecodeQuad(p, q, 0, 0)[..1]
    ensures JoinBytes(p, q, r, x)[..2] == DecodeQuad(p, q, r, 0)[..2]
  {
  }

  // The octets of both decoder paths: those of the first n symbols, whatever follows them.
  lemma JoinGroup(a: Byte, b: Byte, c: Byte, d: Byte, n: nat)
    requires 1 <= n <= 4 && AllSymbols([a, b, c, d][..n])
    ensures JoinBytes(Find(a), Find(b), Find(c), Find(d))[..n - 1] == DecodeGroup([a, b, c, d][..n])
  {
    var s := [a, b, c, d][..n];
    forall k | 0 <= k < n
      ensures Find(s[k]) < 64
    {
      assert IsBase64(s[k]);
      FindIsTableSearch(s[k]);
    }
    assert n >= 2 ==> Find(s[0]) < 64 && Find(s[1]) < 64;
    assert n >= 3 ==> Find(s[2]) < 64;
    assert n == 4 ==> Find(s[3]) < 64;
    JoinFound(Find(a), Find(b), Find(c), Find(d), n);
    assert n == 2 ==> s == [a, b];
    assert n == 3 ==> s == [a, b, c];
  }

  lemma JoinFound(p: bv8, q: bv8, r: bv8, s: bv8, n: nat)
    requires n >= 2 ==> p < 64 && q < 64
    requires n >= 3 ==> r < 64
    requires n == 4 ==> s < 64
    ensures n == 2 ==> JoinBytes(p, q, r, s)[..1] == DecodeQuad(p, q, 0, 0)[..1]
    ensures n == 3 ==> JoinBytes(p, q, r, s)[..2] == DecodeQuad(p, q, r, 0)[..2]
    ensures n == 4 ==> JoinBytes(p, q, r, s) == DecodeQuad(p, q, r, s)
  {
    if n == 2 {
      UnusedSlotsDoNotShow(p, q, 0, r, s);
    } else if n == 3 {
      UnusedSlotsDoNotShow(p, q, r, s, 0);
    } else if n == 4 {
      JoinIsOctets(p, q, r, s);
    }
  }

  // ------------------------------------------------------------- the program

  // Both encoder paths: split the three-byte buffer and append the symbols of its
  // first n octets, which are `group`; the slots past n hold zero.
  method EmitSymbols(charArray3: array<Byte>, charArray4: array<Byte>, n: nat, ret: seq<Byte>, ghost group: seq<Byte>)
    returns (out: seq<Byte>)
    requires charArray3.Length == 3 && charArray4.Length == 4 && charArray3 != charArray4
    requires 1 <= n <= 3 && group == charArray3[..n] && forall k :: n <= k < 3 ==> charArray3[k] == Byte(0)
    modifies charArray4
    ensures out == ret + EncodeGroup(group)
  {
    SplitSlots(charArray3, charArray4);
    ghost var x, y, z := charArray3[0], charArray3[1], charArray3[2];
    assert group == [x, y, z][..n];
    SplitGroup(x, y, z, n);
    out := AppendSymbols(charArray4, n + 1, ret);
  }

  // The four byte expressions.
  method SplitSlots(charArray3: array<Byte>, charArray4: array<Byte>)
    requires charArray3.Length == 3 && charArray4.Length == 4 && charArray3 != charArray4
    modifies charArray4
    ensures charArray4[..] == SplitBytes(charArray3[0], charArray3[1], charArray3[2])
  {
    var x, y, z := charArray3[0].bits, charArray3[1].bits, charArray3[2].bits;
    charArray4[0] := Byte((x & 0xfc) >> 2);
    charArray4[1] := Byte(((x & 0x03) << 4) + ((y & 0xf0) >> 4));
    charArray4[2] := Byte(((y & 0x0f) << 2) + ((z & 0xc0) >> 6));
    charArray4[3] := Byte(z & 0x3f);
  }

  method AppendSymbols(charArray4: array<Byte>, n: nat, ret: seq<Byte>) returns (out: seq<Byte>)
    requires charArray4.Length == 4 && n <= 4
    ensures out == ret + SymbolsOf(charArray4[..])[..n]
  {
    out := ret;
    var j := 0;
    while j < n
      invariant 0 <= j <= n
      invariant out == ret + SymbolsOf(charArray4[..])[..j]
    {
      out := out + [Symbol(charArray4[j].bits)];
      j := j + 1;
    }
  }

  // Both decoder paths: look the four slots up, join them and append the octets
  // of the first n symbols, which are `symbols`, whatever the slots past n hold.
  method EmitOctets(charArray4: array<Byte>, charArray3: array<Byte>, n: nat, ret: seq<Byte>,
                    ghost symbols: seq<Byte>)
    returns (out: seq<Byte>)
    requires charArray3.Length == 3 && charArray4.Length == 4 && charArray3 != charArray4
    requires 1 <= n <= 4 && symbols == charArray4[..n] && AllSymbols(symbols)
    modifies charArray4, charArray3
    ensures out == ret + DecodeGroup(symbols)
  {
    ghost var a, b, c, d := charArray4[0], charArray4[1], charArray4[2], charArray4[3];
    assert symbols == [a, b, c, d][..n];
    JoinGroup(a, b, c, d, n);
    LookUp(charArray4);
    JoinSlots(charArray4, charArray3);
    out := AppendOctets(charArray3, n - 1, ret);
  }

  // The three byte expressions.
  method JoinSlots(charArray4: array<Byte>, charArray3: array<Byte>)
    requires charArray3.Length == 3 && charArray4.Length == 4 && charArray3 != charArray4
    modifies charArray3
    ensures charArray3[..] ==
            JoinBytes(charArray4[0].bits, charArray4[1].bits, charArray4[2].bits, charArray4[3].bits)
  {
    var p, q, r, s := charArray4[0].bits, charArray4[1].bits, charArray4[2].bits, charArray4[3].bits;
    charArray3[0] := Byte((p << 2) + ((q & 0x30) >> 4));
    charArray3[1] := Byte(((q & 0xf) << 4) + ((r & 0x3c) >> 2));
    charArray3[2] := Byte(((r & 0x3) << 6) + s);
  }

  // charArray4[k] = BASE64_CHARS.find(charArray4[k]) for all four slots.
  method LookUp(charArray4: array<Byte>)
    requires charArray4.Length == 4
    modifies charArray4
    ensures forall k :: 0 <= k < 4 ==> charArray4[k] == Byte(Find(old(charArray4[k])))
  {
    var j := 0;
    while j < 4
      invariant 0 <= j <= 4
      invariant forall k :: 0 <= k < j ==> charArray4[k] == Byte(Find(old(charArray4[k])))
      invariant forall k :: j <= k < 4 ==> charArray4[k] == old(charArray4[k])
    {
      charArray4[j] := Byte(Find(charArray4[j]));
      j := j + 1;
    }
  }

  method AppendOctets(charArray3: array<Byte>, n: nat, ret: seq<Byte>) returns (out: seq<Byte>)
    requires charArray3.Length == 3 && n <= 3
    ensures out == ret + charArray3[..n]
  {
    out := ret;
    var j := 0;
    while j < n
      invariant 0 <= j <= n
      invariant out == ret + charArray3[..j]
    {
      out := out + [charArray3[j]];
      j := j + 1;
    }
  }

  // buffer[i] = x
  method Push(buffer: array<Byte>, i: nat, x: Byte, ghost held: seq<Byte>)
    requires i < buffer.Length && buffer[..i] == held
    modifies buffer
    ensures buffer[..i + 1] == held + [x]
  {
    buffer[i] := x;
    assert buffer[..i] == held;
  }

  lemma SliceExtends<T>(s: seq<T>, from: nat, to: nat)
    requires from <= to < |s|
    ensures s[from..to + 1] == s[from..to] + [s[to]]
  {
  }

  lemma SuffixIsSlice<T>(s: seq<T>, from: nat, to: nat)
    requires from <= to == |s|
    ensures s[from..] == s[from..to]
  {
  }

  // buffer[k] = '\0' from slot i on.
  method ClearSlots(buffer: array<Byte>, i: nat)
    requires i <= buffer.Length
    modifies buffer
    ensures buffer[..i] == old(buffer[..i])
    ensures forall k :: i <= k < buffer.Length ==> buffer[k] == Byte(0)
  {
    var j := i;
    while j < buffer.Length
      invariant i <= j <= buffer.Length
      invariant buffer[..i] == old(buffer[..i])
      invariant forall k :: i <= k < j ==> buffer[k] == Byte(0)
    {
      buffer[j] := Byte(0);
      j := j + 1;
    }
  }

  // The encoder's tail, when `left` octets are left: clear the other slots, emit, pad.
  method EncodeTail(charArray3: array<Byte>, charArray4: array<Byte>, left: nat, ret: seq<Byte>,
                    ghost all: seq<Byte>, ghost groups: nat)
    returns (out: seq<Byte>)
    requires charArray3.Length == 3 && charArray4.Length == 4 && charArray3 != charArray4
    requires 0 <= left <= 2 && |all| == 3 * groups + left && charArray3[..left] == all[3 * groups..]
    requires ret == EncodeSymbols(all[..3 * groups])
    modifies charArray3, charArray4
    ensures out == Encode(all)
  {
    out := ret;
    GroupedTail(3, EncodeGroup, groups, all, 3 * groups);
    PaddingOfTail(groups, left);
    if left != 0 {
      ClearSlots(charArray3, left);
      out := EmitSymbols(charArray3, charArray4, left, out, all[3 * groups..]);
      out := AppendPads(left, out);
    }
  }

  method AppendPads(left: nat, ret: seq<Byte>) returns (out: seq<Byte>)
    requires 1 <= left <= 2
    ensures out == ret + Padding(left)
  {
    out := ret;
    var i := left;
    while i < 3
      invariant left <= i <= 3
      invariant out == ret + Padding(left)[..i - left]
    {
      out := out + [PAD];
      i := i + 1;
    }
  }

  // The decoder's tail, when i symbols are left: clear the other slots, emit the whole octets.
  method DecodeTail(charArray4: array<Byte>, charArray3: array<Byte>, i: nat, ret: seq<Byte>,
                    ghost s: seq<Byte>, ghost groups: nat)
    returns (out: seq<Byte>)
    requires charArray3.Length == 3 && charArray4.Length == 4 && charArray3 != charArray4
    requires 0 <= i <= 3 && |s| == 4 * groups + i && charArray4[..i] == s[4 * groups..]
    requires AllSymbols(s) && ret == DecodeSymbols(s[..4 * groups])
    modifies charArray3, charArray4
    ensures out == DecodeSymbols(s)
  {
    out := ret;
    GroupedTail(4, DecodeGroup, groups, s, 4 * groups);
    SymbolsOfSlice(s, 4 * groups, |s|);
    SuffixIsSlice(s, 4 * groups, |s|);
    if i != 0 {
      ClearSlots(charArray4, i);
      out := EmitOctets(charArray4, charArray3, i, out, s[4 * groups..]);
    }
  }

  method Base64Encode(bytesToEncode: seq<Byte>, inLen: nat) returns (ret: seq<Byte>)
    requires inLen <= |bytesToEncode|
    ensures ret == Encode(bytesToEncode[..inLen])
  {
    ret := [];
    var i, next, left := 0, 0, inLen;
    var charArray3, charArray4 := new Byte[3], new Byte[4];
    ghost var all, groups, start, held := bytesToEncode[..inLen], 0, 0, [];
    while left != 0
      invariant start == 3 * groups && start + i == next && next + left == inLen && 0 <= i < 3
      invariant ret == EncodeSymbols(all[..start])
      invariant held == all[start..next] && charArray3[..i] == held
    {
      Push(charArray3, i, bytesToEncode[next], held);
      SliceExtends(all, start, next);
      i, next, left, held := i + 1, next + 1, left - 1, held + [all[next]];
      if i == 3 {
        GroupedStep(3, EncodeGroup, groups, all, start);
        ret := EmitSymbols(charArray3, charArray4, 3, ret, held);
        i, groups, start, held := 0, groups + 1, start + 3, [];
      }
    }
    SuffixIsSlice(all, start, next);
    ret := EncodeTail(charArray3, charArray4, i, ret, all, groups);
  }

  // Whole groups do not change the padding.
  lemma PaddingOfTail(groups: nat, n: nat)
    ensures Padding(3 * groups + n) == Padding(n)
  {
  }

  // in_len is an int: a size from 2^32 on is truncated, and a size whose low 32 bits
  // are 2^31 or more makes it negative, so that it never counts down to zero.
  function ReadLength(n: nat): (k: nat)
    ensures k <= n
  {
    if n % UINT < HALF_UINT then n % UINT else n
  }

  // No signed overflow: a negative in_len must not be decremented below -2^31.
  predicate DecodeDefined(s: seq<Byte>) {
    |s| % UINT < HALF_UINT || AlphabetPrefix(s) < |s| % UINT - HALF_UINT
  }

  // What the program reads of a string.
  function ReadPart(s: seq<Byte>): seq<Byte> {
    s[..ReadLength(|s|)]
  }

  lemma WhatIsRead(s: seq<Byte>)
    ensures ReadPart(s) == if |s| % 0x1_0000_0000 < 0x8000_0000 then s[..|s| % 0x1_0000_0000] else s
    ensures DecodeDefined(s) <==>
            |s| % 0x1_0000_0000 < 0x8000_0000 || AlphabetPrefix(s) + 0x8000_0000 < |s| % 0x1_0000_0000
  {
  }

  // The character at k; at the end of a string operator[] yields a NUL.
  function CharAt(s: seq<Byte>, k: nat): Byte
    requires k <= |s|
  {
    if k < |s| then s[k] else Byte(0)
  }

  // In round k the loop guard holds exactly inside the alphabet prefix of what is
  // read, and its decrement does not overflow.
  lemma GuardIsPrefix(s: seq<Byte>, k: nat)
    requires DecodeDefined(s) && k <= AlphabetPrefix(ReadPart(s))
    ensures IsInt(ToInt(|s|) - k - 1)
    ensures ToInt(|s|) - k != 0 && CharAt(s, k) != PAD && IsBase64(CharAt(s, k)) <==> k < AlphabetPrefix(ReadPart(s))
  {
    var t, p := ReadPart(s), AlphabetPrefix(ReadPart(s));
    if |s| % UINT < HALF_UINT {
      assert ToInt(|s|) == |t|;
    } else {
      assert t == s && ToInt(|s|) == |s| % UINT - UINT;
    }
    assert k < p ==> IsBase64(t[..p][k]);
  }

  // The guard of the loop, whose left operand counts down.
  method KeepsReading(encoded: seq<Byte>, inLen: int, next: nat) returns (keep: bool, left: int)
    requires DecodeDefined(encoded) && next <= AlphabetPrefix(ReadPart(encoded)) && inLen == ToInt(|encoded|) - next
    ensures keep <==> next < AlphabetPrefix(ReadPart(encoded))
    ensures left == inLen - 1
  {
    GuardIsPrefix(encoded, next);
    left := inLen - 1;
    assert IsInt(left);
    keep := inLen != 0 && CharAt(encoded, next) != PAD && IsBase64(CharAt(encoded, next));
  }

  lemma SymbolsOfSlice(s: seq<Byte>, from: nat, to: nat)
    requires AllSymbols(s) && from <= to <= |s|
    ensures AllSymbols(s[from..to])
  {
  }

  method Base64Decode(encoded: seq<Byte>) returns (ret: seq<Byte>)
    requires DecodeDefined(encoded)
    ensures ret == Decode(ReadPart(encoded))
    ensures ret == Decode(if |encoded| % 0x1_0000_0000 < 0x8000_0000 then encoded[..|encoded| % 0x1_0000_0000]
                          else encoded)
  {
    ret := [];
    var inLen, i, next := ToInt(|encoded|), 0, 0;
    var charArray4, charArray3 := new Byte[4], new Byte[3];
    ghost var s, groups, start, held := ReadPart(encoded)[..AlphabetPrefix(ReadPart(encoded))], 0, 0, [];
    while true
      invariant start == 4 * groups && start + i == next <= |s| && 0 <= i < 4
      invariant inLen == ToInt(|encoded|) - next
      invariant ret == DecodeSymbols(s[..start])
      invariant held == s[start..next] && charArray4[..i] == held
      decreases |s| - next
    {
      var keep;
      keep, inLen := KeepsReading(encoded, inLen, next);
      if !keep {
        break;
      }
      Push(charArray4, i, encoded[next], held);
      SliceExtends(s, start, next);
      i, next, held := i + 1, next + 1, held + [s[next]];
      if i == 4 {
        GroupedStep(4, DecodeGroup, groups, s, start);
        SymbolsOfSlice(s, start, next);
        ret := EmitOctets(charArray4, charArray3, 4, ret, held);
        i, groups, start, held := 0, groups + 1, start + 4, [];
      }
    }
    SuffixIsSlice(s, start, next);
    WhatIsRead(encoded);
    ret := DecodeTail(charArray4, charArray3, i, ret, s, groups);
  }
}

/** The laws of the Base64 codec: round trips, lengths, and the exact inverse. */
module Base64Laws {
  import opened Groups
  import opened Base64
  import opened MachineInt

  // ------------------------------------------------------------- one group

  // A 24-bit group is its four 6-bit values, and its three octets.
  lemma RegroupSextets(w: bv24)
    ensures var (p, q, r, s) := Sextets(w); p < 64 && q < 64 && r < 64 && s < 64 && SextetGroup(p, q, r, s) == w
  {
  }

  lemma RegroupOctets(w: bv24)
    ensures var g := Octets(w); OctetGroup(g[0], g[1], g[2]) == w
  {
  }

  lemma UngroupOctets(a: Byte, b: Byte, c: Byte)
    ensures Octets(OctetGroup(a, b, c)) == [a, b, c]
  {
  }

  lemma UngroupSextets(p: bv8, q: bv8, r: bv8, s: bv8)
    requires p < 64 && q < 64 && r < 64 && s < 64
    ensures Sextets(SextetGroup(p, q, r, s)) == (p, q, r, s)
  {
  }

  // Octets that are zero leave zero bits, and the other way round.
  lemma ZeroOctets(a: Byte, b: Byte)
    ensures var (p, q, r, s) := Sextets(OctetGroup(a, b, Byte(0))); s == 0 && r & 0x03 == 0
    ensures var (p, q, r, s) := Sextets(OctetGroup(a, Byte(0), Byte(0))); r == 0 && q & 0x0f == 0
  {
  }

  lemma ZeroSextets(p: bv8, q: bv8, r: bv8)
    requires p < 64 && q < 64 && r < 64
    ensures r & 0x03 == 0 ==> DecodeQuad(p, q, r, 0)[2] == Byte(0)
    ensures q & 0x0f == 0 ==> DecodeQuad(p, q, 0, 0)[1] == Byte(0)
  {
  }

  lemma TripleRoundTrip(a: Byte, b: Byte, c: Byte)
    ensures var e := EncodeTriple(a, b, c);
            AllSymbols(e) && DecodeQuad(Find(e[0]), Find(e[1]), Find(e[2]), Find(e[3])) == [a, b, c]
    ensures c == Byte(0) ==> Find(EncodeTriple(a, b, c)[3]) == 0 && Find(EncodeTriple(a, b, c)[2]) & 0x03 == 0
    ensures b == c == Byte(0) ==> Find(EncodeTriple(a, b, c)[2]) == 0 && Find(EncodeTriple(a, b, c)[1]) & 0x0f == 0
  {
    RegroupSextets(OctetGroup(a, b, c));
    UngroupOctets(a, b, c);
    ZeroOctets(a, b);
    var (p, q, r, s) := Sextets(OctetGroup(a, b, c));
    SymbolIsTable(p);
    SymbolIsTable(q);
    SymbolIsTable(r);
    SymbolIsTable(s);
  }

  lemma GroupRoundTrip(g: seq<Byte>)
    requires |g| <= 3
    ensures |EncodeGroup(g)| == if |g| == 0 then 0 else |g| + 1
    ensures AllSymbols(EncodeGroup(g)) && UnusedBitsZero(EncodeGroup(g))
    ensures DecodeGroup(EncodeGroup(g)) == g
  {
    if |g| == 1 {
      TripleRoundTrip(g[0], Byte(0), Byte(0));
    } else if |g| == 2 {
      TripleRoundTrip(g[0], g[1], Byte(0));
    } else if |g| == 3 {
      TripleRoundTrip(g[0], g[1], g[2]);
    }
  }

  // No octet uses these bits of the last symbol of a short group.
  predicate UnusedBitsZero(g: seq<Byte>) {
    (|g| == 2 ==> Find(g[1]) & 0x0f == 0) && (|g| == 3 ==> Find(g[2]) & 0x03 == 0)
  }

  lemma QuadReencodes(w: Byte, x: Byte, y: Byte, z: Byte)
    requires IsBase64(w) && IsBase64(x) && IsBase64(y) && IsBase64(z)
    ensures var g := DecodeQuad(Find(w), Find(x), Find(y), Find(z)); EncodeTriple(g[0], g[1], g[2]) == [w, x, y, z]
  {
    FindIsTableSearch(w);
    FindIsTableSearch(x);
    FindIsTableSearch(y);
    FindIsTableSearch(z);
    UngroupSextets(Find(w), Find(x), Find(y), Find(z));
    RegroupOctets(SextetGroup(Find(w), Find(x), Find(y), Find(z)));
  }

  lemma PairReencodes(g: seq<Byte>)
    requires AllSymbols(g) && |g| == 2 && UnusedBitsZero(g)
    ensures EncodeGroup(DecodeGroup(g)) == g
  {
    assert IsBase64(g[0]) && IsBase64(g[1]);
    ZeroSextets(Find(g[0]), Find(g[1]), 0);
    QuadReencodes(g[0], g[1], Symbol(0), Symbol(0));
  }

  lemma TripleReencodes(g: seq<Byte>)
    requires AllSymbols(g) && |g| == 3 && UnusedBitsZero(g)
    ensures EncodeGroup(DecodeGroup(g)) == g
  {
    assert IsBase64(g[0]) && IsBase64(g[1]) && IsBase64(g[2]);
    ZeroSextets(Find(g[0]), Find(g[1]), Find(g[2]));
    QuadReencodes(g[0], g[1], g[2], Symbol(0));
  }

  lemma GroupReencodes(g: seq<Byte>)
    requires AllSymbols(g) && |g| <= 4 && |g| != 1 && UnusedBitsZero(g)
    ensures EncodeGroup(DecodeGroup(g)) == g
  {
    if |g| == 2 {
      PairReencodes(g);
    } else if |g| == 3 {
      TripleReencodes(g);
    } else if |g| == 4 {
      assert IsBase64(g[0]) && IsBase64(g[1]) && IsBase64(g[2]) && IsBase64(g[3]);
      QuadReencodes(g[0], g[1], g[2], g[3]);
    }
  }

  // ------------------------------------------------------------ whole strings

  // The symbols of 3 * q + r octets: their number, and what they decode to.
  lemma {:induction false} SymbolsRoundTrip(b: seq<Byte>, q: nat, r: nat)
    requires |b| == 3 * q + r && r < 3
    ensures |EncodeSymbols(b)| == 4 * q + (if r == 0 then 0 else r + 1)
    ensures AllSymbols(EncodeSymbols(b))
    ensures UnusedBitsZero(EncodeSymbols(b)[4 * q..])
    ensures DecodeSymbols(EncodeSymbols(b)) == b
    decreases q
  {
    if q == 0 {
      GroupRoundTrip(b);
      assert EncodeSymbols(b)[0..] == EncodeSymbols(b);
    } else {
      var head, rest := b[..3], b[3..];
      SymbolsRoundTrip(rest, q - 1, r);
      GroupRoundTrip(head);
      var e, es := EncodeGroup(head), EncodeSymbols(rest);
      assert EncodeSymbols(b) == e + es;
      AllSymbolsConcat(e, es);
      assert (e + es)[4 * q..] == es[4 * (q - 1)..];
      assert (e + es)[..4] == e && (e + es)[4..] == es;
      assert head + rest == b;
    }
  }

  lemma AllSymbolsConcat(a: seq<Byte>, b: seq<Byte>)
    ensures AllSymbols(a) && AllSymbols(b) <==> AllSymbols(a + b)
  {
    if AllSymbols(a + b) {
      forall i | 0 <= i < |a| ensures IsBase64(a[i]) { assert IsBase64((a + b)[i]); }
      forall i | 0 <= i < |b| ensures IsBase64(b[i]) { assert IsBase64((a + b)[|a| + i]); }
    }
  }

  // The octets of 4 * q + r symbols: their number, and what they encode to.
  lemma {:induction false} SymbolsReencode(s: seq<Byte>, q: nat, r: nat)
    requires AllSymbols(s) && |s| == 4 * q + r && r < 4
    ensures |DecodeSymbols(s)| == 3 * q + (if r == 0 then 0 else r - 1)
    ensures r != 1 && UnusedBitsZero(s[4 * q..]) ==> EncodeSymbols(DecodeSymbols(s)) == s
    decreases q
  {
    if q == 0 {
      assert s[0..] == s;
      if r != 1 && UnusedBitsZero(s) {
        GroupReencodes(s);
      }
    } else {
      var head, rest := s[..4], s[4..];
      AllSymbolsConcat(head, rest);
      assert head + rest == s;
      SymbolsReencode(rest, q - 1, r);
      GroupReencodes(head);
      var d, ds := DecodeGroup(head), DecodeSymbols(rest);
      assert s[4 * q..] == rest[4 * (q - 1)..];
      assert (d + ds)[..3] == d && (d + ds)[3..] == ds;
    }
  }

  lemma PrefixUnique(s: seq<Byte>, k: nat)
    requires k <= |s| && AllSymbols(s[..k]) && (k < |s| ==> !IsBase64(s[k]))
    ensures AlphabetPrefix(s) == k
  {
    var p := AlphabetPrefix(s);
    assert s[..k][..if p < k then p else k] == s[..if p < k then p else k];
  }

  // The alphabet prefix of an encoding is all of it but the padding.
  lemma EncodingPrefix(b: seq<Byte>)
    ensures var e, s := EncodeSymbols(b), Encode(b);
            AlphabetPrefix(s) == |e| <= |s| <= |e| + 2 && s[..|e|] == e && s[|e|..] == Padding(|b|)
  {
    var e := EncodeSymbols(b);
    SymbolsRoundTrip(b, |b| / 3, |b| % 3);
    assert Encode(b)[..|e|] == e && Encode(b)[|e|..] == Padding(|b|);
    PrefixUnique(Encode(b), |e|);
  }

  // The reference decoding inverts the reference encoding, for every byte string.
  lemma DecodeEncode(b: seq<Byte>)
    ensures Decode(Encode(b)) == b
  {
    EncodingPrefix(b);
    SymbolsRoundTrip(b, |b| / 3, |b| % 3);
  }

  lemma EncodeInjective(a: seq<Byte>, b: seq<Byte>)
    requires Encode(a) == Encode(b)
    ensures a == b
  {
    DecodeEncode(a);
    DecodeEncode(b);
  }

  lemma EncodeLength(b: seq<Byte>)
    ensures |Encode(b)| == 4 * ((|b| + 2) / 3)
  {
    SymbolsRoundTrip(b, |b| / 3, |b| % 3);
  }

  // The largest input whose encoding has a length that in_len holds.
  const ROUND_TRIP_LIMIT: nat := 1610612733

  // What the program makes of its own encoding: a defined run that gives b back,
  // exactly up to that length.
  lemma ProgramRoundTrip(b: seq<Byte>)
    ensures DecodeDefined(Encode(b)) && Decode(ReadPart(Encode(b))) == b <==> |b| <= ROUND_TRIP_LIMIT
  {
    var e := Encode(b);
    EncodeLength(b);
    if |b| <= ROUND_TRIP_LIMIT {
      assert ReadPart(e) == e;
      DecodeEncode(b);
    } else if DecodeDefined(e) {
      LongEncodingIsCut(b);
      DecodeLength(ReadPart(e));
    }
  }

  // At 2^32 encoded characters in_len starts at zero, and nothing is decoded.
  lemma LongRoundTripExample(b: seq<Byte>)
    requires |b| == 3221225472
    ensures DecodeDefined(Encode(b)) && Decode(ReadPart(Encode(b))) == [] != b
  {
    EncodeLength(b);
    assert ReadPart(Encode(b)) == [];
  }

  // Past the limit, a defined run stops at least 2^32 characters early.
  lemma LongEncodingIsCut(b: seq<Byte>)
    requires |b| > ROUND_TRIP_LIMIT && DecodeDefined(Encode(b))
    ensures |ReadPart(Encode(b))| <= |Encode(b)| - UINT
  {
    EncodeLength(b);
    EncodingPrefix(b);
    CutLength(|Encode(b)|, AlphabetPrefix(Encode(b)));
  }

  lemma CutLength(n: nat, k: nat)
    requires n >= HALF_UINT && n <= k + 2 && (n % UINT < HALF_UINT || k < n % UINT - HALF_UINT)
    ensures ReadLength(n) <= n - UINT
  {
    assert n % UINT == n - n / UINT * UINT;
  }

  // The reference decoding of any input: only the longest alphabet-only prefix counts,
  // and every four of its symbols make three octets, rounded down.
  lemma DecodeLength(s: seq<Byte>)
    ensures |Decode(s)| == 3 * AlphabetPrefix(s) / 4
    ensures Decode(s) == Decode(s[..AlphabetPrefix(s)])
  {
    var k := AlphabetPrefix(s);
    SymbolsReencode(s[..k], k / 4, k % 4);
    assert s[..k][..k] == s[..k];
    PrefixUnique(s[..k], k);
  }

  lemma PrefixOfSlice(s: seq<Byte>, n: nat)
    requires n <= |s|
    ensures AlphabetPrefix(s[..n]) == if n < AlphabetPrefix(s) then n else AlphabetPrefix(s)
  {
    var k, p := AlphabetPrefix(s), if n < AlphabetPrefix(s) then n else AlphabetPrefix(s);
    assert s[..n][..p] == s[..k][..p];
    PrefixUnique(s[..n], p);
  }

  // What the program makes of any input: the length of the alphabet-only prefix, cut
  // to what is read, decides how many bytes it returns.
  lemma ProgramDecodeLength(s: seq<Byte>)
    ensures var n, k := ReadLength(|s|), AlphabetPrefix(s);
            |Decode(ReadPart(s))| == 3 * (if n < k then n else k) / 4
  {
    PrefixOfSlice(s, ReadLength(|s|));
    DecodeLength(ReadPart(s));
  }

  // Sections 3.5 and 4 of RFC 4648: whole groups, only pad characters after the
  // last symbol, at most two of them, and zero in the bits they leave unused.
  ghost predicate Canonical(s: seq<Byte>) {
    var k := AlphabetPrefix(s);
    && |s| % 4 == 0
    && |s| - k <= 2
    && (forall i :: k <= i < |s| ==> s[i] == PAD)
    && UnusedBitsZero(s[k / 4 * 4..k])
  }

  lemma EncodeIsCanonical(b: seq<Byte>)
    ensures Canonical(Encode(b))
  {
    var q, r := |b| / 3, |b| % 3;
    SymbolsRoundTrip(b, q, r);
    PaddingOfTail(q, r);
    PaddedIsCanonical(EncodeSymbols(b), Padding(r), q, r);
  }

  // Symbols of 3 * q + r octets, and the padding these call for.
  lemma PaddedIsCanonical(e: seq<Byte>, pads: seq<Byte>, q: nat, r: nat)
    requires AllSymbols(e) && r < 3 && |e| == 4 * q + (if r == 0 then 0 else r + 1) && UnusedBitsZero(e[4 * q..])
    requires pads == Padding(r)
    ensures Canonical(e + pads)
  {
    var s := e + pads;
    assert s[..|e|] == e;
    PrefixUnique(s, |e|);
    assert |e| / 4 == q && |s| == 4 * (if r == 0 then q else q + 1);
    assert s[4 * q..|e|] == e[4 * q..];
  }

  // Encoding inverts decoding exactly on the canonical strings; for the reference functions.
  lemma EncodeDecode(s: seq<Byte>)
    ensures Encode(Decode(s)) == s <==> Canonical(s)
  {
    if Canonical(s) {
      CanonicalReencodes(s);
    } else {
      EncodeIsCanonical(Decode(s));
    }
  }

  // For the program: a defined run of base64_decode whose result base64_encode turns
  // back into s, exactly for the canonical strings whose length in_len holds.
  lemma ProgramInverse(s: seq<Byte>)
    ensures DecodeDefined(s) && Encode(Decode(ReadPart(s))) == s <==> Canonical(s) && |s| < HALF_UINT
  {
    var b := Decode(ReadPart(s));
    if DecodeDefined(s) && Encode(b) == s {
      InverseOnlyWhen(s, b);
    }
    if Canonical(s) && |s| < HALF_UINT {
      InverseWhen(s);
    }
  }

  lemma InverseOnlyWhen(s: seq<Byte>, b: seq<Byte>)
    requires DecodeDefined(s) && Decode(ReadPart(s)) == b && Encode(b) == s
    ensures Canonical(s) && |s| < HALF_UINT
  {
    EncodeIsCanonical(b);
    ProgramRoundTrip(b);
    EncodeLength(b);
  }

  lemma InverseWhen(s: seq<Byte>)
    requires Canonical(s) && |s| < HALF_UINT
    ensures DecodeDefined(s) && Encode(Decode(ReadPart(s))) == s
  {
    assert ReadPart(s) == s;
    CanonicalReencodes(s);
  }

  // 2^32 alphabet characters are canonical, and nothing of them is read.
  lemma LongInverseExample(s: seq<Byte>)
    requires |s| == UINT && AllSymbols(s)
    ensures Canonical(s) && DecodeDefined(s) && Encode(Decode(ReadPart(s))) == [] != s
  {
    assert s[..|s|] == s;
    PrefixUnique(s, |s|);
    assert ReadPart(s) == [];
  }

  lemma CanonicalReencodes(s: seq<Byte>)
    requires Canonical(s)
    ensures Encode(Decode(s)) == s
  {
    var k := AlphabetPrefix(s);
    var t, q, r := s[..k], k / 4, k % 4;
    CanonicalLength(|s|, k);
    assert t[4 * q..] == s[4 * q..k];
    SymbolsReencode(t, q, r);
    PaddingFills(s, k, q, r);
  }

  lemma CanonicalLength(n: nat, k: nat)
    requires n % 4 == 0 && k <= n <= k + 2
    ensures k % 4 != 1 && n == 4 * (if k % 4 == 0 then k / 4 else k / 4 + 1)
  {
  }

  // The pad characters of a canonical string are the ones its octets call for.
  lemma PaddingFills(s: seq<Byte>, k: nat, q: nat, r: nat)
    requires k == 4 * q + r <= |s| && r < 4 && |s| == 4 * (if r == 0 then q else q + 1) && |s| - k <= 2
    requires forall i :: k <= i < |s| ==> s[i] == PAD
    ensures s == s[..k] + Padding(3 * q + (if r == 0 then 0 else r - 1))
  {
    PaddingOfTail(q, if r == 0 then 0 else r - 1);
  }
}

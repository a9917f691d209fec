/**
  What the codec does bit by bit: the symbols of an encoding, read as positions in the
  literal table, six bits each, are the bits of the bytes, eight each, and the other
  way round for a decoding (section 4 of RFC 4648).
*/
module Base64Bits {
  import opened Groups
  import opened Base64
  import opened Base64Laws
  import opened MachineInt

  // -------------------------------------------------------------------- bits

  // The bits of a byte, high bit first.
  function Bits8(b: Byte): (r: seq<bool>)
    ensures |r| == 8
  {
    var v := b.bits;
    [v & 0x80 != 0, v & 0x40 != 0, v & 0x20 != 0, v & 0x10 != 0,
     v & 0x08 != 0, v & 0x04 != 0, v & 0x02 != 0, v & 0x01 != 0]
  }

  // The bits of a 6-bit value, high bit first.
  function Bits6(v: bv8): (r: seq<bool>)
    ensures |r| == 6
  {
    [v & 0x20 != 0, v & 0x10 != 0, v & 0x08 != 0, v & 0x04 != 0, v & 0x02 != 0, v & 0x01 != 0]
  }

  // The images of all elements, one after the other.
  function Flat<T>(bits: T -> seq<bool>, s: seq<T>): seq<bool> {
    if s == [] then [] else bits(s[0]) + Flat(bits, s[1..])
  }

  function OctetBits(b: seq<Byte>): seq<bool> {
    Flat(Bits8, b)
  }

  // Where a character stands in the table.
  function Position(c: Byte): (k: bv8)
    requires IsBase64(c)
    ensures k < 64 && |BASE64_CHARS| == 64 && BASE64_CHARS[k as int] as int == c.bits as int
  {
    FindIsTableSearch(c);
    SymbolIsTable(Find(c));
    Find(c)
  }

  function PositionBits(c: Byte): (r: seq<bool>)
    ensures |r| == 6
  {
    if IsBase64(c) then Bits6(Position(c)) else Bits6(0)
  }

  function SymbolBits(s: seq<Byte>): seq<bool> {
    Flat(PositionBits, s)
  }

  function Zeros(n: nat): (r: seq<bool>)
    ensures |r| == n && forall i :: 0 <= i < n ==> !r[i]
  {
    seq(n, i => false)
  }

  // The table is written out here once more, character by character.
  lemma TableLaw(k: nat)
    requires k < 64
    ensures |BASE64_CHARS| == 64
    ensures k < 26 ==> BASE64_CHARS[k] as int == 'A' as int + k
    ensures 26 <= k < 52 ==> BASE64_CHARS[k] as int == 'a' as int + (k - 26)
    ensures 52 <= k < 62 ==> BASE64_CHARS[k] as int == '0' as int + (k - 52)
    ensures (k == 62 ==> BASE64_CHARS[k] == '+') && (k == 63 ==> BASE64_CHARS[k] == '/')
  {
    TableCode(k);
  }

  // --------------------------------------------------------- sequences of bits

  lemma {:induction false} FlatConcat<T>(bits: T -> seq<bool>, a: seq<T>, b: seq<T>)
    ensures Flat(bits, a + b) == Flat(bits, a) + Flat(bits, b)
  {
    if a == [] {
      assert a + b == b;
    } else {
      assert (a + b)[1..] == a[1..] + b;
      FlatConcat(bits, a[1..], b);
      Assoc(bits(a[0]), Flat(bits, a[1..]), Flat(bits, b));
    }
  }

  lemma {:induction false} FlatLength<T>(bits: T -> seq<bool>, w: nat, s: seq<T>)
    requires forall x :: |bits(x)| == w
    ensures |Flat(bits, s)| == w * |s|
  {
    if s == [] {
    } else {
      FlatLength(bits, w, s[1..]);
      assert |bits(s[0])| == w;
      assert w * |s| == w + w * |s[1..]|;
    }
  }

  lemma FlatPrefix<T>(bits: T -> seq<bool>, w: nat, s: seq<T>, k: nat)
    requires (forall x :: |bits(x)| == w) && k <= |s|
    ensures w * k <= |Flat(bits, s)| && Flat(bits, s[..k]) == Flat(bits, s)[..w * k]
  {
    assert s[..k] + s[k..] == s;
    FlatConcat(bits, s[..k], s[k..]);
    FlatLength(bits, w, s[..k]);
  }

  lemma Assoc<T>(a: seq<T>, b: seq<T>, c: seq<T>)
    ensures (a + b) + c == a + (b + c)
  {
  }

  lemma FlatOf1<T>(bits: T -> seq<bool>, a: T)
    ensures Flat(bits, [a]) == bits(a)
  {
    assert [a][1..] == [] && bits(a) + [] == bits(a);
  }

  lemma FlatOf2<T>(bits: T -> seq<bool>, a: T, b: T)
    ensures Flat(bits, [a, b]) == bits(a) + bits(b)
  {
    assert [a, b] == [a] + [b];
    FlatConcat(bits, [a], [b]);
    FlatOf1(bits, a);
    FlatOf1(bits, b);
  }

  lemma FlatOf3<T>(bits: T -> seq<bool>, a: T, b: T, c: T)
    ensures Flat(bits, [a, b, c]) == bits(a) + bits(b) + bits(c)
  {
    assert [a, b, c] == [a, b] + [c];
    FlatConcat(bits, [a, b], [c]);
    FlatOf2(bits, a, b);
    FlatOf1(bits, c);
  }

  lemma FlatOf4<T>(bits: T -> seq<bool>, a: T, b: T, c: T, d: T)
    ensures Flat(bits, [a, b, c, d]) == bits(a) + bits(b) + (bits(c) + bits(d))
  {
    assert [a, b, c, d] == [a, b] + [c, d];
    FlatConcat(bits, [a, b], [c, d]);
    FlatOf2(bits, a, b);
    FlatOf2(bits, c, d);
  }

  // ------------------------------------------------------------- one group

  // The four 6-bit values of three octets, by shifts.
  lemma Shifts(a: bv8, b: bv8, c: bv8)
    ensures Sextets(OctetGroup(Byte(a), Byte(b), Byte(c))) ==
            (a >> 2, ((a & 0x03) << 4) | (b >> 4), ((b & 0x0f) << 2) | (c >> 6), c & 0x3f)
  {
  }

  lemma FirstBits(a: bv8)
    ensures var p := a >> 2;
            && (p & 0x20 != 0 <==> a & 0x80 != 0) && (p & 0x10 != 0 <==> a & 0x40 != 0)
            && (p & 0x08 != 0 <==> a & 0x20 != 0) && (p & 0x04 != 0 <==> a & 0x10 != 0)
            && (p & 0x02 != 0 <==> a & 0x08 != 0) && (p & 0x01 != 0 <==> a & 0x04 != 0)
  {
  }

  lemma FirstSlice(a: bv8, p: bv8)
    requires (p & 0x20 != 0 <==> a & 0x80 != 0) && (p & 0x10 != 0 <==> a & 0x40 != 0)
    requires (p & 0x08 != 0 <==> a & 0x20 != 0) && (p & 0x04 != 0 <==> a & 0x10 != 0)
    requires (p & 0x02 != 0 <==> a & 0x08 != 0) && (p & 0x01 != 0 <==> a & 0x04 != 0)
    ensures Bits6(p) == Bits8(Byte(a))[..6]
  {
  }

  lemma SecondBits(a: bv8, b: bv8)
    ensures var q := ((a & 0x03) << 4) | (b >> 4);
            && (q & 0x20 != 0 <==> a & 0x02 != 0) && (q & 0x10 != 0 <==> a & 0x01 != 0)
            && (q & 0x08 != 0 <==> b & 0x80 != 0) && (q & 0x04 != 0 <==> b & 0x40 != 0)
            && (q & 0x02 != 0 <==> b & 0x20 != 0) && (q & 0x01 != 0 <==> b & 0x10 != 0)
  {
  }

  lemma SecondSlice(a: bv8, b: bv8, q: bv8)
    requires (q & 0x20 != 0 <==> a & 0x02 != 0) && (q & 0x10 != 0 <==> a & 0x01 != 0)
    requires (q & 0x08 != 0 <==> b & 0x80 != 0) && (q & 0x04 != 0 <==> b & 0x40 != 0)
    requires (q & 0x02 != 0 <==> b & 0x20 != 0) && (q & 0x01 != 0 <==> b & 0x10 != 0)
    ensures Bits6(q) == Bits8(Byte(a))[6..] + Bits8(Byte(b))[..4]
  {
  }

  lemma ThirdBits(b: bv8, c: bv8)
    ensures var r := ((b & 0x0f) << 2) | (c >> 6);
            && (r & 0x20 != 0 <==> b & 0x08 != 0) && (r & 0x10 != 0 <==> b & 0x04 != 0)
            && (r & 0x08 != 0 <==> b & 0x02 != 0) && (r & 0x04 != 0 <==> b & 0x01 != 0)
            && (r & 0x02 != 0 <==> c & 0x80 != 0) && (r & 0x01 != 0 <==> c & 0x40 != 0)
  {
  }

  lemma ThirdSlice(b: bv8, c: bv8, r: bv8)
    requires (r & 0x20 != 0 <==> b & 0x08 != 0) && (r & 0x10 != 0 <==> b & 0x04 != 0)
    requires (r & 0x08 != 0 <==> b & 0x02 != 0) && (r & 0x04 != 0 <==> b & 0x01 != 0)
    requires (r & 0x02 != 0 <==> c & 0x80 != 0) && (r & 0x01 != 0 <==> c & 0x40 != 0)
    ensures Bits6(r) == Bits8(Byte(b))[4..] + Bits8(Byte(c))[..2]
  {
  }

  lemma FourthBits(c: bv8)
    ensures var s := c & 0x3f;
            && (s & 0x20 != 0 <==> c & 0x20 != 0) && (s & 0x10 != 0 <==> c & 0x10 != 0)
            && (s & 0x08 != 0 <==> c & 0x08 != 0) && (s & 0x04 != 0 <==> c & 0x04 != 0)
            && (s & 0x02 != 0 <==> c & 0x02 != 0) && (s & 0x01 != 0 <==> c & 0x01 != 0)
  {
  }

  lemma FourthSlice(c: bv8, s: bv8)
    requires (s & 0x20 != 0 <==> c & 0x20 != 0) && (s & 0x10 != 0 <==> c & 0x10 != 0)
    requires (s & 0x08 != 0 <==> c & 0x08 != 0) && (s & 0x04 != 0 <==> c & 0x04 != 0)
    requires (s & 0x02 != 0 <==> c & 0x02 != 0) && (s & 0x01 != 0 <==> c & 0x01 != 0)
    ensures Bits6(s) == Bits8(Byte(c))[2..]
  {
  }

  // Twenty-four bits, eight by eight and six by six.
  lemma Regroup(x: seq<bool>, y: seq<bool>, z: seq<bool>, p: seq<bool>, q: seq<bool>, r: seq<bool>, s: seq<bool>)
    requires |x| == |y| == |z| == 8 && |p| == |q| == |r| == |s| == 6
    requires p == x[..6] && q == x[6..] + y[..4] && r == y[4..] + z[..2] && s == z[2..]
    ensures p + q + (r + s) == x + y + z
  {
  }

  // The same 24 bits, as three octets and as four 6-bit values.
  lemma SameBits(a: bv8, b: bv8, c: bv8)
    ensures var (p, q, r, s) := Sextets(OctetGroup(Byte(a), Byte(b), Byte(c)));
            Bits6(p) + Bits6(q) + (Bits6(r) + Bits6(s)) == Bits8(Byte(a)) + Bits8(Byte(b)) + Bits8(Byte(c))
  {
    Shifts(a, b, c);
    var (p, q, r, s) := Sextets(OctetGroup(Byte(a), Byte(b), Byte(c)));
    BitSlices(a, b, c, p, q, r, s);
    Regroup(Bits8(Byte(a)), Bits8(Byte(b)), Bits8(Byte(c)), Bits6(p), Bits6(q), Bits6(r), Bits6(s));
  }

  lemma BitSlices(a: bv8, b: bv8, c: bv8, p: bv8, q: bv8, r: bv8, s: bv8)
    requires p == a >> 2 && q == ((a & 0x03) << 4) | (b >> 4) && r == ((b & 0x0f) << 2) | (c >> 6) && s == c & 0x3f
    ensures var x, y, z := Bits8(Byte(a)), Bits8(Byte(b)), Bits8(Byte(c));
            && Bits6(p) == x[..6] && Bits6(q) == x[6..] + y[..4]
            && Bits6(r) == y[4..] + z[..2] && Bits6(s) == z[2..]
  {
    FirstBits(a);
    SecondBits(a, b);
    ThirdBits(b, c);
    FourthBits(c);
    FirstSlice(a, p);
    SecondSlice(a, b, q);
    ThirdSlice(b, c, r);
    FourthSlice(c, s);
  }

  lemma SymbolPosition(k: bv8)
    requires k < 64
    ensures IsBase64(Symbol(k)) && PositionBits(Symbol(k)) == Bits6(k)
  {
    SymbolIsTable(k);
  }

  lemma TripleBits(a: Byte, b: Byte, c: Byte)
    ensures SymbolBits(EncodeTriple(a, b, c)) == Bits8(a) + Bits8(b) + Bits8(c)
  {
    var (p, q, r, s) := Sextets(OctetGroup(a, b, c));
    RegroupSextets(OctetGroup(a, b, c));
    SameBits(a.bits, b.bits, c.bits);
    SymbolPosition(p);
    SymbolPosition(q);
    SymbolPosition(r);
    SymbolPosition(s);
    FlatOf4(PositionBits, Symbol(p), Symbol(q), Symbol(r), Symbol(s));
  }

  lemma QuadBits(w: Byte, x: Byte, y: Byte, z: Byte)
    requires IsBase64(w) && IsBase64(x) && IsBase64(y) && IsBase64(z)
    ensures OctetBits(DecodeQuad(Find(w), Find(x), Find(y), Find(z))) == SymbolBits([w, x, y, z])
  {
    var g := DecodeQuad(Find(w), Find(x), Find(y), Find(z));
    QuadReencodes(w, x, y, z);
    TripleBits(g[0], g[1], g[2]);
    FlatOf3(Bits8, g[0], g[1], g[2]);
  }

  // ------------------------------------------ the same for any bits of a byte

  // The rest does not look into single bits: e maps three octets to four symbols, d four
  // symbols to three octets, and both keep the bits.
  ghost predicate Widths(f8: Byte -> seq<bool>, f6: Byte -> seq<bool>) {
    (forall x :: |f8(x)| == 8) && (forall x :: |f6(x)| == 6)
  }

  lemma CutZeros(x: seq<bool>, n: nat, k: nat)
    requires k <= n
    ensures (x + Zeros(n))[..|x| + k] == x + Zeros(k)
  {
  }

  // Octets that are zero drop out of the symbols kept.
  lemma KeptSymbols(f8: Byte -> seq<bool>, f6: Byte -> seq<bool>, g: seq<Byte>, full: seq<Byte>, e: seq<Byte>)
    requires Widths(f8, f6) && f8(Byte(0)) == Zeros(8) && 1 <= |g| <= 3 && |full| == 3 && |e| == 4
    requires full[..|g|] == g && forall i :: |g| <= i < 3 ==> full[i] == Byte(0)
    requires Flat(f6, e) == Flat(f8, full)
    ensures Flat(f6, e[..|g| + 1]) == Flat(f8, g) + Zeros(FillBits(|g|))
  {
    var zeros := full[|g|..];
    assert full == g + zeros;
    FlatConcat(f8, g, zeros);
    ZeroOctets(f8, zeros);
    FlatLength(f8, 8, g);
    FlatPrefix(f6, 6, e, |g| + 1);
    FillCount(|g|, |zeros|);
    CutAll(Flat(f6, e), Flat(f8, g), 8 * |zeros|, FillBits(|g|), 6 * (|g| + 1));
  }

  lemma FillCount(n: nat, zeros: nat)
    requires 1 <= n <= 3 == n + zeros
    ensures 6 * (n + 1) == 8 * n + FillBits(n) && FillBits(n) <= 8 * zeros
  {
  }

  lemma CutAll(all: seq<bool>, x: seq<bool>, n: nat, k: nat, m: nat)
    requires all == x + Zeros(n) && k <= n && m == |x| + k
    ensures all[..m] == x + Zeros(k)
  {
    CutZeros(x, n, k);
  }

  lemma {:induction false} ZeroOctets(f8: Byte -> seq<bool>, zeros: seq<Byte>)
    requires f8(Byte(0)) == Zeros(8) && forall i :: 0 <= i < |zeros| ==> zeros[i] == Byte(0)
    ensures Flat(f8, zeros) == Zeros(8 * |zeros|)
  {
    if zeros == [] {
    } else {
      ZeroOctets(f8, zeros[1..]);
    }
  }

  // How many bits n octets leave in their last symbol.
  function FillBits(n: nat): (k: nat)
    ensures k < 6
  {
    if n % 3 == 0 then 0 else 6 - 2 * (n % 3)
  }

  // The first symbols of a group decode to its first octets.
  lemma KeptOctets(f8: Byte -> seq<bool>, f6: Byte -> seq<bool>, s: seq<Byte>, full: seq<Byte>, g: seq<Byte>)
    requires Widths(f8, f6) && 2 <= |s| <= 4 == |full| && full[..|s|] == s && |g| == 3
    requires Flat(f8, g) == Flat(f6, full)
    ensures Flat(f8, g[..|s| - 1]) == Take(Flat(f6, s), 8 * (|s| - 1))
  {
    FlatPrefix(f8, 8, g, |s| - 1);
    FlatPrefix(f6, 6, full, |s|);
    TakeSlice(Flat(f6, full), 6 * |s|, 8 * (|s| - 1));
  }

  lemma TakeSlice<T>(a: seq<T>, i: nat, n: nat)
    requires n <= i <= |a|
    ensures Take(a[..i], n) == a[..n]
  {
  }

  function Take<T>(s: seq<T>, n: nat): seq<T> {
    if n <= |s| then s[..n] else s
  }

  // ------------------------------------------------------------ one group, short ones too

  lemma ZeroBits()
    ensures Bits8(Byte(0)) == Zeros(8)
  {
  }

  lemma GroupEncodesBits(g: seq<Byte>)
    requires |g| <= 3
    ensures SymbolBits(EncodeGroup(g)) == OctetBits(g) + Zeros(FillBits(|g|))
  {
    ZeroBits();
    if g != [] {
      var a, b, c := g[0], if |g| > 1 then g[1] else Byte(0), if |g| > 2 then g[2] else Byte(0);
      FullGroup(g, a, b, c);
      TripleBits(a, b, c);
      FlatOf3(Bits8, a, b, c);
      KeptSymbols(Bits8, PositionBits, g, [a, b, c], EncodeTriple(a, b, c));
    }
  }

  lemma FullGroup(g: seq<Byte>, a: Byte, b: Byte, c: Byte)
    requires 1 <= |g| <= 3 && a == g[0] && b == (if |g| > 1 then g[1] else Byte(0))
    requires c == if |g| > 2 then g[2] else Byte(0)
    ensures [a, b, c][..|g|] == g && EncodeGroup(g) == EncodeTriple(a, b, c)[..|g| + 1]
  {
  }

  // A group decodes to the bits of its symbols, up to the last whole octet.
  lemma GroupDecodesBits(s: seq<Byte>)
    requires AllSymbols(s) && |s| <= 4
    ensures var n := if |s| < 2 then 0 else |s| - 1;
            |DecodeGroup(s)| == n && OctetBits(DecodeGroup(s)) == Take(SymbolBits(s), 8 * n)
  {
    if |s| >= 2 {
      var a := Symbol(0);
      var w, x, y, z := s[0], s[1], if |s| > 2 then s[2] else a, if |s| > 3 then s[3] else a;
      FullQuad(s, w, x, y, z);
      QuadBits(w, x, y, z);
      KeptOctets(Bits8, PositionBits, s, [w, x, y, z], DecodeQuad(Find(w), Find(x), Find(y), Find(z)));
    }
  }

  lemma FullQuad(s: seq<Byte>, w: Byte, x: Byte, y: Byte, z: Byte)
    requires AllSymbols(s) && 2 <= |s| <= 4 && w == s[0] && x == s[1]
    requires y == (if |s| > 2 then s[2] else Symbol(0)) && z == if |s| > 3 then s[3] else Symbol(0)
    ensures IsBase64(w) && IsBase64(x) && IsBase64(y) && IsBase64(z) && [w, x, y, z][..|s|] == s
    ensures DecodeGroup(s) == DecodeQuad(Find(w), Find(x), Find(y), Find(z))[..|s| - 1]
  {
    assert IsBase64(s[0]) && IsBase64(s[1]);
    assert |s| > 2 ==> IsBase64(s[2]);
    assert |s| > 3 ==> IsBase64(s[3]);
  }

  // -------------------------------------------------------- whole strings

  lemma {:induction false} SymbolsHoldBits(b: seq<Byte>, q: nat, r: nat)
    requires |b| == 3 * q + r && r < 3
    ensures SymbolBits(EncodeSymbols(b)) == OctetBits(b) + Zeros(FillBits(r))
    decreases q
  {
    if q == 0 {
      GroupEncodesBits(b);
    } else {
      var head, rest := b[..3], b[3..];
      SymbolsHoldBits(rest, q - 1, r);
      GroupEncodesBits(head);
      assert head + rest == b;
      FlatConcat(Bits8, head, rest);
      assert OctetBits(head) + Zeros(0) == OctetBits(head);
      FlatConcat(PositionBits, EncodeGroup(head), EncodeSymbols(rest));
      Assoc(OctetBits(head), OctetBits(rest), Zeros(FillBits(r)));
    }
  }

  // 4 * q + r symbols hold n whole octets.
  lemma {:induction false} OctetsHoldBits(s: seq<Byte>, q: nat, r: nat, n: nat)
    requires AllSymbols(s) && |s| == 4 * q + r && r < 4 && n == 3 * q + (if r == 0 then 0 else r - 1)
    ensures |DecodeSymbols(s)| == n && OctetBits(DecodeSymbols(s)) == Take(SymbolBits(s), 8 * n)
    decreases q
  {
    if q == 0 {
      GroupDecodesBits(s);
    } else {
      var head, rest := s[..4], s[4..];
      assert head + rest == s;
      AllSymbolsConcat(head, rest);
      OctetsHoldBits(rest, q - 1, r, n - 3);
      GroupDecodesBits(head);
      var d, ds := DecodeGroup(head), DecodeSymbols(rest);
      DecodeStep(s);
      MoreOctets(Bits8, PositionBits, head, rest, d, ds, 8 * (n - 3), 8 * n);
    }
  }

  lemma DecodeStep(s: seq<Byte>)
    requires |s| >= 4
    ensures DecodeSymbols(s) == DecodeGroup(s[..4]) + DecodeSymbols(s[4..])
  {
  }

  lemma MoreOctets(f8: Byte -> seq<bool>, f6: Byte -> seq<bool>, head: seq<Byte>, rest: seq<Byte>,
                   d: seq<Byte>, ds: seq<Byte>, n: nat, m: nat)
    requires Widths(f8, f6) && |head| == 4 && m == 24 + n
    requires Flat(f8, d) == Take(Flat(f6, head), 24) && Flat(f8, ds) == Take(Flat(f6, rest), n)
    ensures Flat(f8, d + ds) == Take(Flat(f6, head + rest), m)
  {
    FlatLength(f6, 6, head);
    FlatConcat(f8, d, ds);
    FlatConcat(f6, head, rest);
    TakeConcat(Flat(f6, head), Flat(f6, rest), n, m);
  }

  lemma TakeConcat<T>(a: seq<T>, b: seq<T>, n: nat, m: nat)
    requires m == |a| + n
    ensures Take(a + b, m) == a + Take(b, n)
  {
  }

  // Every encoding: the positions of its symbols spell the bits of the bytes and then
  // zeros, and equal signs fill the last group.
  lemma EncodeBits(b: seq<Byte>)
    ensures var e, n := Encode(b), (8 * |b| + 5) / 6;
            && |e| == (|b| + 2) / 3 * 4 && n <= |e|
            && SymbolBits(e[..n]) == OctetBits(b) + Zeros(6 * n - 8 * |b|)
    ensures var e, n := Encode(b), (8 * |b| + 5) / 6;
            && (forall i :: 0 <= i < n ==> IsBase64(e[i])) && forall i :: n <= i < |e| ==> e[i] == Byte(61)
  {
    SymbolCount(b);
    SymbolsHoldBits(b, |b| / 3, |b| % 3);
    EncodingParts(b);
  }

  lemma SymbolCount(b: seq<Byte>)
    ensures |EncodeSymbols(b)| == (8 * |b| + 5) / 6
    ensures FillBits(|b| % 3) == 6 * |EncodeSymbols(b)| - 8 * |b|
  {
    SymbolsRoundTrip(b, |b| / 3, |b| % 3);
  }

  lemma EncodingParts(b: seq<Byte>)
    ensures var e, n := Encode(b), |EncodeSymbols(b)|;
            && |e| == (|b| + 2) / 3 * 4 && n <= |e| && e[..n] == EncodeSymbols(b)
            && (forall i :: 0 <= i < n ==> IsBase64(e[i])) && forall i :: n <= i < |e| ==> e[i] == Byte(61)
  {
    EncodingPrefix(b);
    EncodeLength(b);
    var e, n := Encode(b), |EncodeSymbols(b)|;
    forall i | 0 <= i < |e|
      ensures if i < n then IsBase64(e[i]) else e[i] == Byte(61)
    {
      if i < n {
        assert IsBase64(e[..n][i]);
      } else {
        assert e[i] == e[n..][i - n];
      }
    }
  }

  // Every decoding: the bits of the bytes are those of the alphabet prefix, as far as
  // they fill whole bytes.
  lemma DecodeBits(s: seq<Byte>)
    ensures var k := AlphabetPrefix(s);
            && |Decode(s)| == 3 * k / 4 && 8 * (3 * k / 4) <= |SymbolBits(s[..k])|
            && OctetBits(Decode(s)) == SymbolBits(s[..k])[..8 * (3 * k / 4)]
  {
    var k := AlphabetPrefix(s);
    OctetsHoldBits(s[..k], k / 4, k % 4, 3 * k / 4);
    FlatLength(PositionBits, 6, s[..k]);
  }

  // Bits determine bytes, so these laws leave no freedom.
  lemma {:induction false} BitsDetermine(a: seq<Byte>, b: seq<Byte>)
    requires OctetBits(a) == OctetBits(b)
    ensures a == b
  {
    FlatLength(Bits8, 8, a);
    FlatLength(Bits8, 8, b);
    if a == [] {
    } else {
      assert Bits8(a[0]) == OctetBits(a)[..8] == OctetBits(b)[..8] == Bits8(b[0]);
      assert OctetBits(a[1..]) == OctetBits(a)[8..] == OctetBits(b)[8..] == OctetBits(b[1..]);
      SameByte(a[0], b[0]);
      BitsDetermine(a[1..], b[1..]);
    }
  }

  lemma SameByte(x: Byte, y: Byte)
    requires Bits8(x) == Bits8(y)
    ensures x == y
  {
    assert forall i :: 0 <= i < 8 ==> Bits8(x)[i] == Bits8(y)[i];
  }

  // Vectors of section 10 of RFC 4648: f, fo and foo.
  lemma TestVectors()
    ensures Encode([]) == []
    ensures Encode([Byte(102)]) == [Byte(90), Byte(103), Byte(61), Byte(61)]
    ensures Encode([Byte(102), Byte(111)]) == [Byte(90), Byte(109), Byte(56), Byte(61)]
    ensures Encode([Byte(102), Byte(111), Byte(111)]) == [Byte(90), Byte(109), Byte(57), Byte(118)]
  {
    var b := [Byte(102), Byte(111), Byte(111)];
    assert b[..3] == b && b[3..] == [];
  }
}

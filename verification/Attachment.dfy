/**
  The attachment path of cpp/email_with_curl/main.cpp: encode the file, queue the
  encoding in chunks, drain the queue; what arrives, and for which file sizes.
*/
module Attachment {
  import opened Groups
  import opened Base64
  import opened Base64Laws
  import opened Mail
  import opened MachineInt

  // ----------------------------------------------------- draining a queue

  function Flatten(queue: seq<seq<Byte>>): seq<Byte> {
    if queue == [] then [] else queue[0] + Flatten(queue[1..])
  }

  lemma {:induction false} FlattenConcat(a: seq<seq<Byte>>, b: seq<seq<Byte>>)
    ensures Flatten(a + b) == Flatten(a) + Flatten(b)
  {
    if a == [] {
      assert a + b == b;
    } else {
      assert (a + b)[1..] == a[1..] + b;
      FlattenConcat(a[1..], b);
    }
  }

  // The add_ functions queue no empty line; then everything arrives exactly when no line holds a NUL.
  lemma {:induction false} StreamIsQueue(queue: seq<seq<Byte>>)
    requires forall i :: 0 <= i < |queue| ==> queue[i] != []
    ensures |StreamOf(queue)| <= |Flatten(queue)|
    ensures StreamOf(queue) == Flatten(queue) <==> forall i :: 0 <= i < |queue| ==> NUL !in queue[i]
  {
    if queue == [] {
    } else {
      var line, rest := queue[0], queue[1..];
      StreamIsQueue(rest);
      if NUL in line {
        assert Strlen(line) < |line| by {
          assert line[..|line|] == line;
        }
        assert |StreamOf(queue)| < |Flatten(queue)|;
        assert NUL in queue[0];
      } else {
        assert Strlen(line) == |line|;
        assert line[..|line|] == line;
        assert StreamOf(queue) == line + StreamOf(rest);
        assert forall i :: 1 <= i < |queue| ==> queue[i] == rest[i - 1];
        if StreamOf(queue) == Flatten(queue) {
          assert StreamOf(rest) == (line + StreamOf(rest))[|line|..];
          assert Flatten(rest) == (line + Flatten(rest))[|line|..];
        }
        if forall i :: 0 <= i < |queue| ==> NUL !in queue[i] {
          forall i | 0 <= i < |rest| ensures NUL !in rest[i] {
            assert rest[i] == queue[i + 1];
          }
        }
      }
    }
  }

  // ------------------------------------------------------- the chunk loop

  // The loop variable before round k: an unsigned int, stepped by the chunk size.
  function ChunkIndex(k: nat): nat {
    CHUNK_SIZE * k % UINT
  }

  // std::string::substr, which clips at the end of the string.
  function Substr(s: seq<Byte>, pos: nat, len: nat): seq<Byte>
    requires pos <= |s|
  {
    if pos + len <= |s| then s[pos..pos + len] else s[pos..]
  }

  // What one round queues; i + chunk_size is an unsigned int too.
  function Piece(s: seq<Byte>, i: nat): seq<Byte>
    requires i < |s|
  {
    if (i + CHUNK_SIZE) % UINT < |s| then Substr(s, i, CHUNK_SIZE) else Substr(s, i, |s| - i)
  }

  ghost predicate Running(n: nat, k: nat) {
    forall j :: 0 <= j < k ==> ChunkIndex(j) < n
  }

  // The loop over n characters leaves after exactly k rounds.
  ghost predicate Stops(n: nat, k: nat) {
    Running(n, k) && n <= ChunkIndex(k)
  }

  ghost predicate LoopEnds(n: nat) {
    exists k: nat :: Stops(n, k)
  }

  // The pieces of the first k rounds.
  function Pieces(s: seq<Byte>, k: nat): (p: seq<seq<Byte>>)
    requires Running(|s|, k)
    ensures |p| == k
  {
    if k == 0 then [] else Pieces(s, k - 1) + [Piece(s, ChunkIndex(k - 1))]
  }

  function Lines(p: seq<seq<Byte>>): (lines: seq<seq<Byte>>)
    ensures |lines| == |p| && forall i :: 0 <= i < |p| ==> lines[i] == p[i] + CRLF
  {
    seq(|p|, i requires 0 <= i < |p| => p[i] + CRLF)
  }

  method QueueChunks(email: CurlEmail, content: seq<Byte>) returns (ghost rounds: nat)
    requires LoopEnds(|content|)
    modifies email
    ensures Stops(|content|, rounds)
    ensures email.mailContent == old(email.mailContent) + Lines(Pieces(content, rounds))
  {
    ghost var last: nat :| Stops(|content|, last);
    var fileSize := |content|;
    var i: nat := 0;
    rounds := 0;
    while i < fileSize
      invariant i == ChunkIndex(rounds) && Running(fileSize, rounds) && rounds <= last
      invariant email.mailContent == old(email.mailContent) + Lines(Pieces(content, rounds))
      decreases last - rounds
    {
      assert rounds < last;
      LinesStep(content, rounds, old(email.mailContent));
      IndexStep(rounds);
      QueueOne(email, content, i);
      i := (i + CHUNK_SIZE) % UINT;
      rounds := rounds + 1;
    }
  }

  // The body of the loop.
  method QueueOne(email: CurlEmail, content: seq<Byte>, i: nat)
    requires i < |content|
    modifies email
    ensures email.mailContent == old(email.mailContent) + [Piece(content, i) + CRLF]
  {
    if (i + CHUNK_SIZE) % UINT < |content| {
      email.AddData(Substr(content, i, CHUNK_SIZE));
    } else {
      email.AddData(Substr(content, i, |content| - i));
    }
  }

  // One more round.
  lemma LinesStep(s: seq<Byte>, k: nat, before: seq<seq<Byte>>)
    requires Running(|s|, k) && ChunkIndex(k) < |s|
    ensures Running(|s|, k + 1)
    ensures before + Lines(Pieces(s, k)) + [Piece(s, ChunkIndex(k)) + CRLF] == before + Lines(Pieces(s, k + 1))
  {
    assert Lines(Pieces(s, k + 1)) == Lines(Pieces(s, k)) + [Piece(s, ChunkIndex(k)) + CRLF];
  }

  lemma IndexStep(k: nat)
    ensures ChunkIndex(k + 1) == (ChunkIndex(k) + CHUNK_SIZE) % UINT
  {
    var q, r := CHUNK_SIZE * k / UINT, CHUNK_SIZE * k % UINT;
    if r + CHUNK_SIZE < UINT {
      QuotientUnique(CHUNK_SIZE * (k + 1), UINT, q, r + CHUNK_SIZE);
    } else {
      QuotientUnique(CHUNK_SIZE * (k + 1), UINT, q + 1, r + CHUNK_SIZE - UINT);
    }
  }

  // ------------------------------------------------ for which sizes it works

  // Above this many characters the unsigned loop variable wraps before the end.
  const CHUNK_LIMIT: nat := 286331 * CHUNK_SIZE
  // The largest file whose encoding is that long.
  const FILE_LIMIT: nat := CHUNK_LIMIT / 4 * 3

  lemma {:induction false} FirstStop(n: nat, k: nat)
    requires n <= ChunkIndex(k)
    ensures LoopEnds(n)
    decreases k
  {
    if Running(n, k) {
      assert Stops(n, k);
    } else {
      var j :| 0 <= j < k && n <= ChunkIndex(j);
      FirstStop(n, j);
    }
  }

  // The loop variable takes multiples of 8 only, and all of them: with more than
  // 2^32 - 8 characters the loop never leaves, with at most that many it does.
  lemma LoopEndsExactly(n: nat)
    ensures LoopEnds(n) <==> n <= UINT - 8
  {
    if n <= UINT - 8 {
      assert ChunkIndex(28060453) == UINT - 8;
      FirstStop(n, 28060453);
    }
    if LoopEnds(n) {
      var k: nat :| Stops(n, k);
      var q := CHUNK_SIZE * k / UINT;
      assert ChunkIndex(k) == 8 * (1875 * k - 0x2000_0000 * q);
    }
  }

  lemma StopsOnce(n: nat, j: nat, k: nat)
    requires Stops(n, j) && Stops(n, k)
    ensures j == k
  {
  }

  function Min(a: nat, b: nat): nat {
    if a <= b then a else b
  }

  // Any round: the index is reduced modulo 2^32, and up to 15000 characters are taken there.
  lemma RoundLaws(s: seq<Byte>, j: nat, i: nat)
    requires i < |s|
    ensures ChunkIndex(j) == 15000 * j % 0x1_0000_0000
    ensures Piece(s, i) == s[i..if i + 15000 <= |s| then i + 15000 else |s|]
  {
  }

  // Below the limit, round j queues the j-th slice.
  lemma PieceIsSlice(s: seq<Byte>, j: nat)
    requires j <= 286330 && CHUNK_SIZE * j < |s|
    ensures ChunkIndex(j) == CHUNK_SIZE * j
    ensures Piece(s, ChunkIndex(j)) == s[15000 * j..Min(15000 * (j + 1), |s|)]
  {
  }

  // Until the loop variable wraps, the pieces so far are a prefix of the content.
  lemma {:induction false} PiecesArePrefix(s: seq<Byte>, k: nat)
    requires k <= 286331 && (k > 0 ==> CHUNK_SIZE * (k - 1) < |s|)
    ensures Running(|s|, k)
    ensures Flatten(Pieces(s, k)) == s[..Min(CHUNK_SIZE * k, |s|)]
  {
    if k == 0 {
    } else {
      PiecesArePrefix(s, k - 1);
      PieceIsSlice(s, k - 1);
      var p := Piece(s, ChunkIndex(k - 1));
      FlattenConcat(Pieces(s, k - 1), [p]);
      assert Flatten([p]) == p;
    }
  }

  // The rounds over n characters within the limit.
  function Rounds(n: nat): (k: nat)
    ensures CHUNK_SIZE * k >= n && (k > 0 ==> CHUNK_SIZE * (k - 1) < n)
    ensures n <= CHUNK_LIMIT ==> k <= 286331
  {
    (n + CHUNK_SIZE - 1) / CHUNK_SIZE
  }

  lemma ChunksWithinLimit(s: seq<Byte>)
    requires |s| <= CHUNK_LIMIT
    ensures Stops(|s|, Rounds(|s|)) && Flatten(Pieces(s, Rounds(|s|))) == s
  {
    var k := Rounds(|s|);
    IndexBeforeWrap(k);
    PiecesArePrefix(s, k);
    assert s[..|s|] == s;
  }

  lemma IndexBeforeWrap(k: nat)
    requires k <= 286331
    ensures ChunkIndex(k) == CHUNK_SIZE * k
  {
  }

  // Past the limit the loop goes round again and queues too much, if it leaves at all.
  lemma ChunksPastLimit(s: seq<Byte>, k: nat)
    requires |s| > CHUNK_LIMIT && Stops(|s|, k)
    ensures |Flatten(Pieces(s, k))| > |s|
  {
    LoopEndsExactly(|s|);
    var last := 286331;
    assert ChunkIndex(last) == CHUNK_LIMIT && ChunkIndex(last + 1) == 12704;
    assert k > last + 1;
    PiecesArePrefix(s, last);
    var p, q := Piece(s, CHUNK_LIMIT), Piece(s, 12704);
    assert Pieces(s, last + 2) == Pieces(s, last) + [p] + [q];
    FlattenConcat(Pieces(s, last) + [p], [q]);
    FlattenConcat(Pieces(s, last), [p]);
    assert Flatten([p]) == p && Flatten([q]) == q;
    PiecesGrow(s, last + 2, k);
  }

  lemma {:induction false} PiecesGrow(s: seq<Byte>, j: nat, k: nat)
    requires j <= k && Running(|s|, k)
    ensures |Flatten(Pieces(s, j))| <= |Flatten(Pieces(s, k))|
    decreases k - j
  {
    if j == k {
    } else {
      PiecesGrow(s, j, k - 1);
      FlattenConcat(Pieces(s, k - 1), [Piece(s, ChunkIndex(k - 1))]);
    }
  }

  // The chunk loop queues the content, cut but complete and in order, exactly up to the limit.
  lemma ChunkingExact(s: seq<Byte>)
    ensures (exists k: nat :: Stops(|s|, k) && Flatten(Pieces(s, k)) == s) <==> |s| <= CHUNK_LIMIT
  {
    if |s| <= CHUNK_LIMIT {
      ChunksWithinLimit(s);
    } else {
      forall k: nat | Stops(|s|, k)
        ensures Flatten(Pieces(s, k)) != s
      {
        ChunksPastLimit(s, k);
      }
    }
  }

  // ------------------------------------------------------------- end to end

  // Line breaks taken out again.
  function StripCrLf(s: seq<Byte>): seq<Byte> {
    if |s| < 2 then s
    else if s[0] == CR && s[1] == LF then StripCrLf(s[2..])
    else [s[0]] + StripCrLf(s[1..])
  }

  lemma {:induction false} StripLine(p: seq<Byte>, rest: seq<Byte>)
    requires CR !in p
    ensures StripCrLf(p + (CRLF + rest)) == p + StripCrLf(rest)
  {
    var end := CRLF + rest;
    if p == [] {
      assert p + end == end;
      assert end[0] == CR && end[1] == LF && end[2..] == rest;
    } else {
      var s := p + end;
      StripLine(p[1..], rest);
      assert s[0] == p[0] && s[1..] == p[1..] + end && p[0] != CR;
      assert [p[0]] + (p[1..] + StripCrLf(rest)) == p + StripCrLf(rest);
    }
  }

  lemma {:induction false} StripLines(p: seq<seq<Byte>>)
    requires forall i :: 0 <= i < |p| ==> CR !in p[i]
    ensures StripCrLf(Flatten(Lines(p))) == Flatten(p)
  {
    if p == [] {
    } else {
      StripLines(p[1..]);
      StripLine(p[0], Flatten(Lines(p[1..])));
      assert p[0] + CRLF + Flatten(Lines(p[1..])) == p[0] + (CRLF + Flatten(Lines(p[1..])));
      assert Lines(p)[1..] == Lines(p[1..]);
    }
  }

  // An encoding holds alphabet and pad characters only.
  lemma EncodingLacks(b: seq<Byte>, c: Byte)
    requires !IsBase64(c) && c != PAD
    ensures c !in Encode(b)
  {
    SymbolsRoundTrip(b, |b| / 3, |b| % 3);
    forall i | 0 <= i < |Encode(b)|
      ensures Encode(b)[i] != c
    {
      assert i < |EncodeSymbols(b)| ==> IsBase64(EncodeSymbols(b)[i]);
    }
  }

  lemma {:induction false} PiecesArePlain(s: seq<Byte>, k: nat, c: Byte)
    requires Running(|s|, k) && c !in s
    ensures forall i :: 0 <= i < k ==> c !in Pieces(s, k)[i]
  {
    if k == 0 {
    } else {
      PiecesArePlain(s, k - 1, c);
    }
  }

  // The queued lines of an encoding drain to themselves, and stripping their
  // line breaks gives the pieces back.
  lemma BodyOfEncoding(b: seq<Byte>, k: nat)
    requires Running(|Encode(b)|, k)
    ensures var p := Pieces(Encode(b), k);
            && (forall i :: 0 <= i < k ==> NUL !in Lines(p)[i] && Lines(p)[i] != [])
            && StreamOf(Lines(p)) == Flatten(Lines(p))
            && StripCrLf(StreamOf(Lines(p))) == Flatten(p)
  {
    var e := Encode(b);
    EncodingLacks(b, CR);
    EncodingLacks(b, NUL);
    PiecesArePlain(e, k, CR);
    PiecesArePlain(e, k, NUL);
    StreamIsQueue(Lines(Pieces(e, k)));
    StripLines(Pieces(e, k));
  }

  // What main encodes: static_cast<unsigned int> drops the high bits of the size.
  function EncodedAttachment(file: seq<Byte>): seq<Byte> {
    Encode(file[..|file| % UINT])
  }

  lemma WholeFileEncoded(file: seq<Byte>)
    requires |file| < UINT
    ensures EncodedAttachment(file) == Encode(file)
  {
    assert file[..|file|] == file;
  }

  // The whole file is encoded, and the drained chunks carry that encoding.
  ghost predicate Delivered(file: seq<Byte>) {
    var e := EncodedAttachment(file);
    && e == Encode(file)
    && exists k: nat :: Stops(|e|, k) && StripCrLf(StreamOf(Lines(Pieces(e, k)))) == e
  }

  // End to end: delivered exactly up to 3221223750 bytes.
  lemma DeliveredExactly(file: seq<Byte>)
    ensures Delivered(file) <==> |file| <= 3221223750
  {
    if Delivered(file) {
      DeliveredOnlyWithinLimit(file);
    }
    if |file| <= FILE_LIMIT {
      WholeFileEncoded(file);
      DeliveredWithinLimit(file);
    }
  }

  lemma DeliveredOnlyWithinLimit(file: seq<Byte>)
    requires Delivered(file)
    ensures |file| <= FILE_LIMIT
  {
    var b := file[..|file| % UINT];
    EncodeInjective(b, file);
    var e := Encode(b);
    var k: nat :| Stops(|e|, k) && StripCrLf(StreamOf(Lines(Pieces(e, k)))) == e;
    BodyOfEncoding(b, k);
    if |e| > CHUNK_LIMIT {
      ChunksPastLimit(e, k);
    }
    FileFits(b);
  }

  function ZeroFile(n: nat): (file: seq<Byte>)
    ensures |file| == n
  {
    seq(n, _ => Byte(0))
  }

  // One byte over the limit the loop leaves but queues too much; from 3221225467
  // bytes on it does not leave.
  lemma LongFileExamples()
    ensures var file := ZeroFile(FILE_LIMIT + 1); LoopEnds(|EncodedAttachment(file)|) && !Delivered(file)
    ensures var file := ZeroFile(3221225467); !LoopEnds(|EncodedAttachment(file)|) && !Delivered(file)
  {
    LongFile(ZeroFile(FILE_LIMIT + 1));
    LongFile(ZeroFile(3221225467));
  }

  lemma LongFile(file: seq<Byte>)
    requires FILE_LIMIT < |file| < UINT
    ensures !Delivered(file)
    ensures LoopEnds(|EncodedAttachment(file)|) <==> |file| <= 3221225466
  {
    DeliveredExactly(file);
    WholeFileEncoded(file);
    EncodeLength(file);
    LoopEndsExactly(|Encode(file)|);
  }

  lemma FileFits(b: seq<Byte>)
    ensures |Encode(b)| <= CHUNK_LIMIT <==> |b| <= FILE_LIMIT
  {
    EncodeLength(b);
  }

  lemma DeliveredWithinLimit(file: seq<Byte>)
    requires |file| <= FILE_LIMIT
    ensures var e, k := Encode(file), Rounds(|Encode(file)|);
            Stops(|e|, k) && StripCrLf(StreamOf(Lines(Pieces(e, k)))) == e
  {
    EncodeLength(file);
    ChunksWithinLimit(Encode(file));
    BodyOfEncoding(file, Rounds(|Encode(file)|));
  }

  // Whole groups of three octets encode to their own stretch of the text.
  lemma WholeGroups(q: nat, a: seq<Byte>, b: seq<Byte>)
    requires |a| == 3 * q
    ensures EncodeSymbols(a + b) == EncodeSymbols(a) + EncodeSymbols(b) && |EncodeSymbols(a)| == 4 * q
    ensures Padding(|a|) == [] && Padding(|a + b|) == Padding(|b|)
  {
    GroupedConcat(3, EncodeGroup, q, a, b);
    SymbolsRoundTrip(a, q, 0);
    PaddingOfTail(q, |b|);
    PaddingOfTail(q, 0);
  }

  lemma EncodeConcat(q: nat, a: seq<Byte>, b: seq<Byte>)
    requires |a| == 3 * q
    ensures Encode(a + b) == Encode(a) + Encode(b) && |Encode(a)| == 4 * q
  {
    WholeGroups(q, a, b);
    assert Encode(a) == EncodeSymbols(a);
  }

  lemma MiddleOfConcat<T>(x: seq<T>, y: seq<T>, z: seq<T>)
    ensures (x + (y + z))[|x|..|x| + |y|] == y
  {
  }

  // The encoding of a slice that starts on a group and ends on one, or at the end.
  lemma EncodeSlice(file: seq<Byte>, p: nat, from: nat, q: nat, to: nat)
    requires from == 3 * p && from <= to <= |file| && (to == from + 3 * q || to == |file|)
    ensures var n := |Encode(file[from..to])|;
            4 * p + n <= |Encode(file)| && Encode(file)[4 * p..4 * p + n] == Encode(file[from..to])
  {
    var before, part, after := file[..from], file[from..to], file[to..];
    assert file == before + (part + after);
    EncodeConcat(p, before, part + after);
    if to == |file| {
      assert part + after == part;
      MiddleOfConcat(Encode(before), Encode(part), []);
      assert Encode(part) + [] == Encode(part);
    } else {
      EncodeConcat(q, part, after);
      MiddleOfConcat(Encode(before), Encode(part), Encode(after));
    }
  }

  // The bytes of the file that round j carries.
  function FilePart(file: seq<Byte>, j: nat): seq<Byte>
    requires 11250 * j <= |file|
  {
    file[11250 * j..Min(11250 * (j + 1), |file|)]
  }

  // The chunk size is a multiple of four, so each piece is the encoding of its own
  // 11250 bytes of the file.
  lemma PieceEncodes(file: seq<Byte>, j: nat)
    requires |file| <= FILE_LIMIT && 11250 * j < |file|
    ensures CHUNK_SIZE * j < |Encode(file)| && ChunkIndex(j) == CHUNK_SIZE * j
    ensures Piece(Encode(file), ChunkIndex(j)) == Encode(FilePart(file, j))
  {
    PieceStretch(file, j);
    PieceIsSlice(Encode(file), j);
    EncodeSlice(file, 3750 * j, 11250 * j, 3750, Min(11250 * (j + 1), |file|));
  }

  lemma PieceStretch(file: seq<Byte>, j: nat)
    requires |file| <= FILE_LIMIT && 11250 * j < |file|
    ensures j <= 286330 && CHUNK_SIZE * j < |Encode(file)|
    ensures Min(CHUNK_SIZE * (j + 1), |Encode(file)|) == CHUNK_SIZE * j + |Encode(FilePart(file, j))|
  {
    EncodeLength(file);
    EncodeLength(FilePart(file, j));
    PieceBounds(|file|, j);
  }

  // So it decodes on its own.
  lemma PieceDecodes(file: seq<Byte>, j: nat)
    requires |file| <= FILE_LIMIT && 11250 * j < |file|
    ensures CHUNK_SIZE * j < |Encode(file)| && ChunkIndex(j) == CHUNK_SIZE * j
    ensures Decode(Piece(Encode(file), ChunkIndex(j))) == file[11250 * j..Min(11250 * (j + 1), |file|)]
  {
    PieceEncodes(file, j);
    DecodeEncode(FilePart(file, j));
  }

  lemma PieceBounds(n: nat, j: nat)
    requires n <= FILE_LIMIT && 11250 * j < n
    ensures j <= 286330 && CHUNK_SIZE * j < 4 * ((n + 2) / 3)
    ensures Min(CHUNK_SIZE * (j + 1), 4 * ((n + 2) / 3)) ==
            CHUNK_SIZE * j + 4 * ((Min(11250 * (j + 1), n) - 11250 * j + 2) / 3)
  {
    assert (n + 2) / 3 == 3750 * j + (n - 11250 * j + 2) / 3;
  }

  // main: encode and queue a file.
  method AttachFile(email: CurlEmail, fileContent: seq<Byte>) returns (ghost rounds: nat)
    requires LoopEnds(|EncodedAttachment(fileContent)|)
    modifies email
    ensures var encoded := Encode(fileContent[..|fileContent| % 0x1_0000_0000]);
            Stops(|encoded|, rounds) && email.mailContent == old(email.mailContent) + Lines(Pieces(encoded, rounds))
  {
    var encoded := Base64Encode(fileContent, |fileContent| % UINT);
    rounds := QueueChunks(email, encoded);
  }

  // main after the header fields: attach the file, close the message, let libcurl drain it.
  method DeliverFile(email: CurlEmail, file: seq<Byte>, closing: seq<Byte>, ptr: array<Byte>, size: nat, nmemb: nat)
    returns (stream: seq<Byte>, ghost pieces: seq<seq<Byte>>)
    requires |file| <= FILE_LIMIT
    requires forall i :: 0 <= i < |email.mailContent| ==>
               email.mailContent[i] != [] && NUL !in email.mailContent[i] && |email.mailContent[i]| <= ptr.Length
    requires NUL !in closing && |closing| + 2 <= ptr.Length && CHUNK_SIZE + 2 <= ptr.Length
    requires |email.mailContent| + 286332 <= INT_MAX
    requires size < WORD && nmemb < WORD && size * nmemb % WORD >= 1
    modifies email, ptr
    ensures stream == Flatten(old(email.mailContent)) + Flatten(Lines(pieces)) + closing + CRLF
    ensures Flatten(pieces) == StripCrLf(Flatten(Lines(pieces))) == Encode(file)
    ensures Decode(StripCrLf(Flatten(Lines(pieces)))) == file
  {
    ghost var headers := email.mailContent;
    WholeFileEncoded(file);
    EncodeLength(file);
    ChunksWithinLimit(Encode(file));
    ghost var rounds := AttachFile(email, file);
    StopsOnce(|Encode(file)|, rounds, Rounds(|Encode(file)|));
    email.AddData(closing);
    ghost var queue := email.mailContent;
    pieces := Pieces(Encode(file), rounds);
    MessageStream(headers, file, rounds, closing, queue);
    QueueFits(headers, file, rounds, closing, queue, ptr.Length);
    var ctx := new UploadStatus(email);
    assert queue[0..] == queue;
    stream := Drain(ptr, size, nmemb, ctx);
  }

  lemma {:induction false} PieceLengths(s: seq<Byte>, k: nat)
    requires Running(|s|, k) && |s| <= CHUNK_LIMIT
    ensures forall i :: 0 <= i < k ==> |Pieces(s, k)[i]| <= CHUNK_SIZE
  {
    if k == 0 {
    } else {
      PieceLengths(s, k - 1);
    }
  }

  // The whole queue of a message, as it drains.
  lemma MessageStream(headers: seq<seq<Byte>>, file: seq<Byte>, k: nat, closing: seq<Byte>, queue: seq<seq<Byte>>)
    requires |file| <= FILE_LIMIT && k == Rounds(|Encode(file)|) && Stops(|Encode(file)|, k)
    requires forall i :: 0 <= i < |headers| ==> headers[i] != [] && NUL !in headers[i]
    requires NUL !in closing
    requires queue == headers + Lines(Pieces(Encode(file), k)) + [closing + CRLF]
    ensures var p := Pieces(Encode(file), k);
            && Flatten(p) == StripCrLf(Flatten(Lines(p))) == Encode(file)
            && Decode(StripCrLf(Flatten(Lines(p)))) == file
            && StreamOf(queue) == Flatten(headers) + Flatten(Lines(p)) + closing + CRLF
  {
    var lines := Lines(Pieces(Encode(file), k));
    EncodeLength(file);
    ChunksWithinLimit(Encode(file));
    BodyOfEncoding(file, k);
    DecodeEncode(file);
    QueueStream(headers, lines, closing, queue);
  }

  lemma QueueStream(headers: seq<seq<Byte>>, lines: seq<seq<Byte>>, closing: seq<Byte>, queue: seq<seq<Byte>>)
    requires forall i :: 0 <= i < |headers| ==> headers[i] != [] && NUL !in headers[i]
    requires forall i :: 0 <= i < |lines| ==> lines[i] != [] && NUL !in lines[i]
    requires NUL !in closing && queue == headers + lines + [closing + CRLF]
    ensures StreamOf(queue) == Flatten(headers) + Flatten(lines) + closing + CRLF
  {
    var last := closing + CRLF;
    assert NUL !in last;
    forall i | 0 <= i < |queue|
      ensures queue[i] != [] && NUL !in queue[i]
    {
      assert queue[i] == if i < |headers| then headers[i] else if i < |queue| - 1 then lines[i - |headers|] else last;
    }
    StreamIsQueue(queue);
    FlattenThree(headers, lines, last);
    assert Flatten(headers) + Flatten(lines) + last == Flatten(headers) + Flatten(lines) + closing + CRLF;
  }

  lemma FlattenThree(a: seq<seq<Byte>>, b: seq<seq<Byte>>, last: seq<Byte>)
    ensures Flatten(a + b + [last]) == Flatten(a) + Flatten(b) + last
  {
    FlattenConcat(a + b, [last]);
    FlattenConcat(a, b);
    assert Flatten([last]) == last;
  }

  lemma QueueFits(headers: seq<seq<Byte>>, file: seq<Byte>, k: nat, closing: seq<Byte>, queue: seq<seq<Byte>>,
                  room: nat)
    requires |file| <= FILE_LIMIT && k == Rounds(|Encode(file)|) && Stops(|Encode(file)|, k)
    requires forall i :: 0 <= i < |headers| ==> |headers[i]| <= room
    requires |closing| + 2 <= room && CHUNK_SIZE + 2 <= room
    requires queue == headers + Lines(Pieces(Encode(file), k)) + [closing + CRLF]
    ensures |queue| <= |headers| + 286332
    ensures forall i :: 0 <= i < |queue| ==> Strlen(queue[i]) <= room
  {
    EncodeLength(file);
    PieceLengths(Encode(file), k);
  }
}

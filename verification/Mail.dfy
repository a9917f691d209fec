/**
  The mail queue of cpp/email_with_curl/main.cpp: lines are queued by the add_
  functions, an encoded attachment is queued in chunks, and payload_source hands
  the queue to libcurl one line per call.
*/
module Mail {
  import opened Base64
  import opened MachineInt

  const CR := Byte(13)
  const LF := Byte(10)
  const NUL := Byte(0)
  const CRLF: seq<Byte> := [CR, LF]

  const CHUNK_SIZE: nat := 15000

  // ------------------------------------------------------------ the queue

  class CurlEmail {
    var mailContent: seq<seq<Byte>>

    constructor ()
      ensures mailContent == []
    {
      mailContent := [];
    }

    method AddField(key: seq<Byte>, value: seq<Byte>)
      modifies this
      ensures mailContent == old(mailContent) + [key + [Byte(58), Byte(32)] + value + [Byte(13), Byte(10)]]
    {
      mailContent := mailContent + [key + [Byte(58), Byte(32)] + value + CRLF];
    }

    method AddEmptyField()
      modifies this
      ensures mailContent == old(mailContent) + [[Byte(13), Byte(10)]]
    {
      mailContent := mailContent + [CRLF];
    }

    method AddData(data: seq<Byte>)
      modifies this
      ensures mailContent == old(mailContent) + [data + [Byte(13), Byte(10)]]
    {
      mailContent := mailContent + [data + CRLF];
    }
  }

  // ----------------------------------------------------------- the reader

  // strlen of c_str(): the bytes before the first NUL.
  function Strlen(s: seq<Byte>): (n: nat)
    ensures n <= |s| && Byte(0) !in s[..n]
    ensures n < |s| ==> s[n] == Byte(0)
  {
    if s == [] || s[0] == NUL then 0 else 1 + Strlen(s[1..])
  }

  // What call k hands over, when it is asked for at least one byte.
  function NextOf(queue: seq<seq<Byte>>, k: nat): seq<Byte> {
    if k < |queue| then queue[k][..Strlen(queue[k])] else []
  }

  class UploadStatus {
    const mail: CurlEmail
    var linesRead: int // a C int

    constructor (mail: CurlEmail)
      ensures this.mail == mail && linesRead == 0
    {
      this.mail := mail;
      linesRead := 0;
    }

    ghost predicate Valid()
      reads this, mail
    {
      0 <= linesRead <= |mail.mailContent| <= INT_MAX
    }

    ghost function NextLine(): seq<Byte>
      requires Valid()
      reads this, mail
    {
      NextOf(mail.mailContent, linesRead)
    }
  }

  // The caller's buffer holds the next line ("len should not be larger than size*nmemb").
  method PayloadSource(ptr: array<Byte>, size: nat, nmemb: nat, ctx: UploadStatus) returns (n: nat)
    requires ctx.Valid() && size < WORD && nmemb < WORD
    requires |ctx.NextLine()| <= ptr.Length
    modifies ptr, ctx
    ensures ctx.Valid()
    ensures var asked := size * nmemb % WORD >= 1;
            if asked && old(ctx.linesRead) < |ctx.mail.mailContent| then
              n == |old(ctx.NextLine())| && ptr[..n] == old(ctx.NextLine()) && ptr[n..] == old(ptr[..])[n..]
              && ctx.linesRead == old(ctx.linesRead) + 1
            else
              n == 0 && ptr[..] == old(ptr[..]) && ctx.linesRead == old(ctx.linesRead)
  {
    if size == 0 || nmemb == 0 || size * nmemb % WORD < 1 {
      return 0;
    }
    if |ctx.mail.mailContent| > ctx.linesRead {
      var data := ctx.mail.mailContent[ctx.linesRead];
      var len := Strlen(data);
      forall i | 0 <= i < len {
        ptr[i] := data[i];
      }
      ctx.linesRead := ctx.linesRead + 1;
      return len;
    }
    return 0;
  }

  // The bytes that leave the program: lines up to the first one that reads as empty.
  function StreamOf(queue: seq<seq<Byte>>): seq<Byte> {
    if queue == [] || Strlen(queue[0]) == 0 then []
    else queue[0][..Strlen(queue[0])] + StreamOf(queue[1..])
  }

  // What leaves of a queue, line by line: each up to its first NUL, until one starts with it.
  lemma StreamLaws(line: seq<Byte>, rest: seq<Byte>, queue: seq<seq<Byte>>)
    requires Byte(0) !in line
    ensures StreamOf([]) == []
    ensures line != [] ==> StreamOf([line] + queue) == line + StreamOf(queue)
    ensures line != [] ==> StreamOf([line + [Byte(0)] + rest] + queue) == line + StreamOf(queue)
    ensures StreamOf([[Byte(0)] + rest] + queue) == [] == StreamOf([[]] + queue)
  {
    var cut := line + [Byte(0)] + rest;
    StrlenCuts(line, rest);
    assert cut[..|line|] == line && line[..|line|] == line;
    assert ([line] + queue)[1..] == queue && ([cut] + queue)[1..] == queue;
  }

  lemma {:induction false} StrlenCuts(line: seq<Byte>, rest: seq<Byte>)
    requires Byte(0) !in line
    ensures Strlen(line + [Byte(0)] + rest) == |line| == Strlen(line)
  {
    var cut := line + [Byte(0)] + rest;
    if line == [] {
      assert cut[0] == Byte(0);
    } else {
      StrlenCuts(line[1..], rest);
      assert cut[0] == line[0] && cut[1..] == line[1..] + [Byte(0)] + rest;
    }
  }

  lemma StreamStep(queue: seq<seq<Byte>>, k: nat, room: nat)
    requires k <= |queue| && forall line :: line in queue ==> Strlen(line) <= room
    ensures StreamOf(queue[k..]) == if NextOf(queue, k) == [] then [] else NextOf(queue, k) + StreamOf(queue[k + 1..])
    ensures |NextOf(queue, k)| <= room
  {
    assert k < |queue| ==> queue[k] in queue;
  }

  // One call that asks for at least one byte: what it hands over leaves first.
  method ReadLine(ptr: array<Byte>, size: nat, nmemb: nat, ctx: UploadStatus) returns (n: nat)
    requires ctx.Valid() && size < WORD && nmemb < WORD && size * nmemb % WORD >= 1
    requires forall line :: line in ctx.mail.mailContent ==> Strlen(line) <= ptr.Length
    modifies ptr, ctx
    ensures ctx.Valid() && n <= ptr.Length
    ensures var queue, k := ctx.mail.mailContent, old(ctx.linesRead);
            if n == 0 then StreamOf(queue[k..]) == []
            else ctx.linesRead == k + 1 && StreamOf(queue[k..]) == ptr[..n] + StreamOf(queue[k + 1..])
  {
    StreamStep(ctx.mail.mailContent, ctx.linesRead, ptr.Length);
    n := PayloadSource(ptr, size, nmemb, ctx);
  }

  lemma ConcatLine(a: seq<Byte>, b: seq<Byte>, c: seq<Byte>)
    ensures (a + b) + c == a + (b + c)
    ensures a + [] == a
  {
  }

  // libcurl's side: call the reader until it returns 0.
  method Drain(ptr: array<Byte>, size: nat, nmemb: nat, ctx: UploadStatus) returns (stream: seq<Byte>)
    requires ctx.Valid() && size < WORD && nmemb < WORD && size * nmemb % WORD >= 1
    requires forall line :: line in ctx.mail.mailContent ==> Strlen(line) <= ptr.Length
    modifies ptr, ctx
    ensures ctx.Valid()
    ensures stream == StreamOf(ctx.mail.mailContent[old(ctx.linesRead)..])
  {
    stream := [];
    ghost var queue, first := ctx.mail.mailContent, ctx.linesRead;
    while true
      invariant ctx.Valid() && first <= ctx.linesRead
      invariant stream + StreamOf(queue[ctx.linesRead..]) == StreamOf(queue[first..])
      decreases |queue| - ctx.linesRead
    {
      var n := ReadLine(ptr, size, nmemb, ctx);
      if n == 0 {
        break;
      }
      ConcatLine(stream, ptr[..n], StreamOf(queue[ctx.linesRead..]));
      stream := stream + ptr[..n];
    }
    ConcatLine(stream, [], []);
  }
}

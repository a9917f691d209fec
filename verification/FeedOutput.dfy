/**
  The incremental splitter of terminal output, PlayerUI._feed_output of
  python/sftp_mp3.py: chunks of a stream become log lines and a live status.

  Removing escape sequences, trimming blanks and recognising a progress line stay
  uninterpreted: they are the three functions of a TextOps value.
*/
module FeedOutput {
  // logText: _strip_ansi(raw).rstrip(); statusText: _strip_ansi(raw).strip();
  // isProgress: the regular expression search or the "A:" prefix.
  datatype TextOps = TextOps(logText: string -> string, statusText: string -> string, isProgress: string -> bool)

  // --------------------------------------------------------- Python strings

  // s.find(c)
  function Find(s: string, c: char): (i: int)
    ensures -1 <= i < |s|
    ensures i == -1 ==> c !in s
    ensures i >= 0 ==> s[i] == c && c !in s[..i]
  {
    if s == [] then -1
    else if s[0] == c then 0
    else var i := Find(s[1..], c); if i == -1 then -1 else i + 1
  }

  // s.split(c)[-1]
  function AfterLast(s: string, c: char): (r: string)
    ensures c !in r && |r| <= |s| && r == s[|s| - |r|..]
    ensures |r| < |s| ==> s[|s| - |r| - 1] == c
    ensures c in s ==> |r| < |s|
  {
    if s == [] then []
    else if s[|s| - 1] == c then []
    else AfterLast(s[..|s| - 1], c) + [s[|s| - 1]]
  }

  // s.replace("\r\n", "\n")
  function Normalize(s: string): string {
    if |s| < 2 then s
    else if s[0] == '\r' && s[1] == '\n' then ['\n'] + Normalize(s[2..])
    else [s[0]] + Normalize(s[1..])
  }

  // del lines[:-m], for m of any sign; with m == 0 nothing is deleted.
  function DeleteHead(lines: seq<string>, m: int): seq<string> {
    if m == 0 then lines
    else if m > 0 then (if |lines| <= m then lines else lines[|lines| - m..])
    else (if -m <= |lines| then lines[-m..] else [])
  }

  // lines.append(text), then the limit
  function Push(lines: seq<string>, text: string, m: int): seq<string> {
    var longer := lines + [text];
    if |longer| > m then DeleteHead(longer, m) else longer
  }

  function PushAll(lines: seq<string>, texts: seq<string>, m: int): seq<string>
    decreases |texts|
  {
    if texts == [] then lines else PushAll(Push(lines, texts[0], m), texts[1..], m)
  }

  // ------------------------------------------------------- what a call does

  // What one call makes of the text it holds: the raw lines it completes, the
  // text it keeps, and whether it ran into a carriage return.
  datatype Split = Split(raws: seq<string>, rest: string, sawCr: bool)

  function SplitText(s: string): Split
    decreases |s|
  {
    var nl, cr := Find(s, '\n'), Find(s, '\r');
    if nl == -1 && cr == -1 then Split([], s, false)
    else if nl != -1 && (cr == -1 || nl < cr) then
      var r := SplitText(s[nl + 1..]);
      r.(raws := [s[..nl]] + r.raws)
    else Split([], AfterLast(s, '\r'), true)
  }

  // The log lines a raw line contributes: one or none.
  function LogText(ops: TextOps, raw: string): seq<string> {
    var text := ops.logText(raw);
    if text == "" || ops.isProgress(text) then [] else [text]
  }

  function LogTexts(ops: TextOps, raws: seq<string>): seq<string> {
    if raws == [] then [] else LogText(ops, raws[0]) + LogTexts(ops, raws[1..])
  }

  // The live status after the raw lines: the last progress line, if any.
  function LiveAfter(ops: TextOps, raws: seq<string>, live: string): string {
    if raws == [] then live
    else
      var text := ops.logText(raws[0]);
      LiveAfter(ops, raws[1..], if text != "" && ops.isProgress(text) then text else live)
  }

  // The live status after the text that is kept: after a carriage return any
  // text counts, without one only a progress line does.
  function LiveRest(ops: TextOps, r: Split, live: string): string {
    var text := ops.statusText(r.rest);
    if r.sawCr then (if text != "" then text else live)
    else if r.rest != "" && text != "" && ops.isProgress(text) then text else live
  }

  // One more raw line in front.
  lemma FirstText(ops: TextOps, raw: string, raws: seq<string>)
    ensures LogTexts(ops, [raw] + raws) == LogText(ops, raw) + LogTexts(ops, raws)
  {
    assert ([raw] + raws)[1..] == raws;
  }

  lemma FirstRaw(ops: TextOps, raw: string, raws: seq<string>, lines: seq<string>, m: int, live: string)
    ensures PushAll(lines, LogTexts(ops, [raw] + raws), m) ==
            var text := ops.logText(raw);
            PushAll(if text == "" || ops.isProgress(text) then lines else Push(lines, text, m), LogTexts(ops, raws), m)
    ensures LiveAfter(ops, [raw] + raws, live) ==
            var text := ops.logText(raw);
            LiveAfter(ops, raws, if text != "" && ops.isProgress(text) then text else live)
  {
    FirstText(ops, raw, raws);
    assert ([raw] + raws)[1..] == raws;
    var text, texts := ops.logText(raw), LogTexts(ops, raws);
    assert [] + texts == texts;
    assert ([text] + texts)[1..] == texts;
  }

  class OutputLog {
    var lines: seq<string>

    constructor ()
      ensures lines == []
    {
      lines := [];
    }

    method FeedOutput(ops: TextOps, pending0: string, chunk: string, maxLines: int, prevLive: string)
      returns (pending: string, live: string)
      modifies this
      ensures var r := SplitText(pending0 + Normalize(chunk));
              && lines == PushAll(old(lines), LogTexts(ops, r.raws), maxLines)
              && pending == r.rest
              && live == LiveRest(ops, r, LiveAfter(ops, r.raws, prevLive))
    {
      pending := pending0 + Normalize(chunk);
      live := prevLive;
      var sawCr := false;
      ghost var all := SplitText(pending);
      while true
        invariant !sawCr
        invariant PushAll(lines, LogTexts(ops, SplitText(pending).raws), maxLines) ==
                  PushAll(old(lines), LogTexts(ops, all.raws), maxLines)
        invariant SplitText(pending).rest == all.rest && SplitText(pending).sawCr == all.sawCr
        invariant LiveAfter(ops, SplitText(pending).raws, live) == LiveAfter(ops, all.raws, prevLive)
        decreases |pending|
      {
        var nl := Find(pending, '\n');
        var cr := Find(pending, '\r');
        if nl == -1 && cr == -1 {
          break;
        }
        if nl != -1 && (cr == -1 || nl < cr) {
          var raw := pending[..nl];
          FirstRaw(ops, raw, SplitText(pending[nl + 1..]).raws, lines, maxLines, live);
          if '\r' in raw {
            assert false; // a line feed comes first only when no carriage return precedes it
          }
          pending := pending[nl + 1..];
          var text := ops.logText(raw);
          if text != "" {
            if ops.isProgress(text) {
              live := text;
            } else {
              lines := lines + [text];
              if |lines| > maxLines {
                lines := DeleteHead(lines, maxLines);
              }
            }
          }
        } else {
          pending := AfterLast(pending, '\r');
          var text := ops.statusText(pending);
          if text != "" {
            live := text;
          }
          sawCr := true;
          break;
        }
      }
      if !sawCr && pending != "" && '\n' !in pending && '\r' !in pending {
        var text := ops.statusText(pending);
        if text != "" && ops.isProgress(text) {
          live := text;
        }
      }
    }
  }
}

/**
  What the receiver of a message does with the bytes that
  cpp/email_with_curl/main.cpp has sent: cut them at line ends, cut the lines at
  the boundary delimiters (section 5.1 of RFC 2046), take the body of the second
  part after its first empty line, join the lines and decode them.
*/
module Receiver {
  import opened Base64
  import opened Mail
  import opened Attachment
  import opened Options

  // ------------------------------------------------------------------ lines

  // s cut at every CR LF; one more line than there are line ends.
  function Split(s: seq<Byte>): (r: seq<seq<Byte>>)
    ensures |r| >= 1
  {
    if |s| < 2 then [s]
    else if s[0] == CR && s[1] == LF then [[]] + Split(s[2..])
    else Prepend(s[0], Split(s[1..]))
  }

  lemma SplitCons(b: Byte, s: seq<Byte>)
    requires !(b == CR && s != [] && s[0] == LF)
    ensures Split([b] + s) == Prepend(b, Split(s))
  {
    assert ([b] + s)[1..] == s;
    if s == [] {
      assert Split([]) == [[]] && [b] + [] == [b];
    }
  }

  lemma SplitBreak(s: seq<Byte>)
    ensures Split(CRLF + s) == [[]] + Split(s)
  {
    assert (CRLF + s)[2..] == s;
  }

  // One more element at the start of the first sequence.
  function Prepend<T>(b: T, r: seq<seq<T>>): seq<seq<T>>
    requires |r| >= 1
  {
    [[b] + r[0]] + r[1..]
  }

  lemma PrependConcat<T>(b: T, r: seq<seq<T>>, t: seq<seq<T>>)
    requires |r| >= 1
    ensures Prepend(b, r + t) == Prepend(b, r) + t
  {
    assert (r + t)[0] == r[0] && (r + t)[1..] == r[1..] + t;
  }

  lemma Assoc<T>(a: seq<T>, b: seq<T>, c: seq<T>)
    ensures (a + b) + c == a + (b + c)
  {
  }

  // A line end separates whatever stands before and after it.
  lemma {:induction false} SplitConcat(x: seq<Byte>, rest: seq<Byte>)
    ensures Split(x + (CRLF + rest)) == Split(x) + Split(rest)
    decreases |x|
  {
    var end := CRLF + rest;
    if x == [] {
      assert x + end == end;
      SplitBreak(rest);
    } else if |x| >= 2 && x[0] == CR && x[1] == LF {
      var y := x[2..];
      SplitConcat(y, rest);
      assert x == CRLF + y;
      Assoc(CRLF, y, end);
      SplitBreak(y);
      SplitBreak(y + end);
      Assoc([[]], Split(y), Split(rest));
    } else {
      var y := x[1..];
      SplitConcat(y, rest);
      assert x == [x[0]] + y;
      Assoc([x[0]], y, end);
      assert (y + end)[0] == if y == [] then CR else y[0];
      SplitCons(x[0], y);
      SplitCons(x[0], y + end);
      PrependConcat(x[0], Split(y), Split(rest));
    }
  }

  lemma {:induction false} SplitOneLine(x: seq<Byte>)
    requires CR !in x
    ensures Split(x) == [x]
  {
    if |x| < 2 {
    } else {
      SplitOneLine(x[1..]);
      assert [x[0]] + x[1..] == x;
    }
  }

  // Lines without carriage returns are found again, in front of anything.
  lemma {:induction false} SplitLines(p: seq<seq<Byte>>, rest: seq<Byte>)
    requires forall i :: 0 <= i < |p| ==> CR !in p[i]
    ensures Split(Flatten(Lines(p)) + rest) == p + Split(rest)
  {
    if p == [] {
      assert Flatten(Lines(p)) + rest == rest;
    } else {
      var tail := Flatten(Lines(p[1..]));
      SplitLines(p[1..], rest);
      SplitOneLine(p[0]);
      assert Lines(p)[1..] == Lines(p[1..]);
      assert (p[0] + CRLF + tail) + rest == p[0] + (CRLF + (tail + rest));
      SplitConcat(p[0], tail + rest);
      Assoc([p[0]], p[1..], Split(rest));
      assert [p[0]] + p[1..] == p;
    }
  }

  // The bytes before the first c.
  function UpTo(s: seq<Byte>, c: Byte): seq<Byte> {
    if s == [] || s[0] == c then [] else [s[0]] + UpTo(s[1..], c)
  }

  lemma {:induction false} UpToFirst(a: seq<Byte>, c: Byte, rest: seq<Byte>)
    requires c !in a && rest != [] && rest[0] == c
    ensures UpTo(a + rest, c) == a
  {
    if a == [] {
      assert a + rest == rest;
    } else {
      assert (a + rest)[1..] == a[1..] + rest;
      UpToFirst(a[1..], c, rest);
    }
  }

  lemma {:induction false} UpToInside(a: seq<Byte>, c: Byte, rest: seq<Byte>)
    requires c in a
    ensures UpTo(a + rest, c) == UpTo(a, c)
  {
    assert (a + rest)[0] == a[0] && (a + rest)[1..] == a[1..] + rest;
    if a[0] != c {
      UpToInside(a[1..], c, rest);
    }
  }

  // A prefix without c.
  lemma {:induction false} UpToPrefix(a: seq<Byte>, c: Byte)
    ensures |UpTo(a, c)| <= |a| && UpTo(a, c) == a[..|UpTo(a, c)|] && c !in UpTo(a, c)
    ensures c in a ==> |UpTo(a, c)| < |a| && a[|UpTo(a, c)|] == c
  {
    if a == [] {
    } else if a[0] != c {
      UpToPrefix(a[1..], c);
    }
  }

  // ------------------------------------------------------------------ parts

  predicate StartsWith(line: seq<Byte>, d: seq<Byte>) {
    |d| <= |line| && line[..|d|] == d
  }

  ghost predicate NoDelimiter(lines: seq<seq<Byte>>, d: seq<Byte>) {
    forall i :: 0 <= i < |lines| ==> !StartsWith(lines[i], d)
  }

  // The lines cut at every line that starts with d, which is dropped.
  function Parts(lines: seq<seq<Byte>>, d: seq<Byte>): (r: seq<seq<seq<Byte>>>)
    ensures |r| >= 1
  {
    if lines == [] then [[]]
    else
      var r := Parts(lines[1..], d);
      if StartsWith(lines[0], d) then [[]] + r else Prepend(lines[0], r)
  }

  // A delimiter separates whatever stands before and after it.
  lemma {:induction false} PartsConcat(x: seq<seq<Byte>>, line: seq<Byte>, rest: seq<seq<Byte>>, d: seq<Byte>)
    requires StartsWith(line, d)
    ensures Parts(x + ([line] + rest), d) == Parts(x, d) + Parts(rest, d)
    decreases |x|
  {
    var s := x + ([line] + rest);
    if x == [] {
      assert s == [line] + rest;
      assert s[1..] == rest;
    } else {
      PartsConcat(x[1..], line, rest, d);
      assert s[1..] == x[1..] + ([line] + rest) && s[0] == x[0];
      var r, t := Parts(x[1..], d), Parts(rest, d);
      if StartsWith(x[0], d) {
        Assoc([[]], r, t);
      } else {
        PrependConcat(x[0], r, t);
      }
    }
  }

  // Lines stay in one part exactly when none of them is a delimiter.
  lemma {:induction false} OnePart(lines: seq<seq<Byte>>, d: seq<Byte>)
    ensures Parts(lines, d) == [lines] <==> NoDelimiter(lines, d)
    ensures |Parts(lines, d)| == 1 <==> NoDelimiter(lines, d)
  {
    if lines == [] {
    } else {
      OnePart(lines[1..], d);
      assert NoDelimiter(lines, d) <==> !StartsWith(lines[0], d) && NoDelimiter(lines[1..], d) by {
        assert forall i :: 1 <= i < |lines| ==> lines[i] == lines[1..][i - 1];
        assert forall i :: 0 <= i < |lines| - 1 ==> lines[1..][i] == lines[i + 1];
      }
      assert [lines[0]] + lines[1..] == lines;
    }
  }

  // ------------------------------------------------------------ the attachment

  // The lines of a part after its header, which the first empty line ends.
  function BodyOf(part: seq<seq<Byte>>): seq<seq<Byte>> {
    if part == [] then [] else if part[0] == [] then part[1..] else BodyOf(part[1..])
  }

  // Its header, the lines before that.
  function HeaderOf(part: seq<seq<Byte>>): seq<seq<Byte>> {
    if part == [] || part[0] == [] then [] else [part[0]] + HeaderOf(part[1..])
  }

  // The rest of the first line that starts with the key.
  function ValueOf(lines: seq<seq<Byte>>, key: seq<Byte>): Option<seq<Byte>> {
    if lines == [] then None
    else if StartsWith(lines[0], key) then Some(lines[0][|key|..])
    else ValueOf(lines[1..], key)
  }

  // The bytes of the attachment, the second part after the preamble.
  function Receive(stream: seq<Byte>, d: seq<Byte>): Option<seq<Byte>> {
    var parts := Parts(Split(stream), d);
    if |parts| < 3 then None else Some(Decode(Flatten(BodyOf(parts[2]))))
  }

}

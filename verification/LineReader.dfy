/** get_next_line: a line reader whose one static buffer is carried across calls and descriptors. */
module LineReader {
  import opened Strings

  // ---------------------------------------------------------------- C strings in arrays

  /** The characters before the first NUL. */
  function CStr(s: string): (r: string)
    ensures |r| <= |s| && r == s[..|r|] && NulFree(r) && (|r| < |s| ==> s[|r|] == '\0')
    ensures '\0' in s ==> |r| < |s|
  {
    if s == "" || s[0] == '\0' then "" else [s[0]] + CStr(s[1..])
  }

  lemma {:induction false} CStrIs(s: string, n: nat)
    requires n < |s| && NulFree(s[..n]) && s[n] == '\0'
    ensures CStr(s) == s[..n]
  {
    if n == 0 {
    } else {
      assert s[0] == s[..n][0];
      assert s[1..][..n - 1] == s[..n][1..];
      CStrIs(s[1..], n - 1);
    }
  }

  predicate Terminated(s: string) {
    '\0' in s
  }

  lemma AtEnd(s: string, i: nat)
    requires Terminated(s) && i <= |CStr(s)|
    ensures s[i] == '\0' <==> i == |CStr(s)|
  {
    if i < |CStr(s)| {
      assert CStr(s)[i] == s[i];
    }
  }

  method Length(s: array<char>) returns (size: nat)
    requires Terminated(s[..])
    ensures size == |CStr(s[..])| < s.Length
  {
    size := 0;
    AtEnd(s[..], size);
    while s[size] != '\0'
      invariant size <= |CStr(s[..])| < s.Length
      invariant s[size] == '\0' <==> size == |CStr(s[..])|
      decreases s.Length - size
    {
      size := size + 1;
      AtEnd(s[..], size);
    }
  }

  /** The copying loop that every function below shares: characters of s up to its NUL, to dst from an offset. */
  method CopyInto(dst: array<char>, at: nat, s: array<char>)
    requires Terminated(s[..]) && dst != s && at + |CStr(s[..])| < dst.Length
    modifies dst
    ensures dst[..at] == old(dst[..at])
    ensures dst[at..at + |CStr(s[..])|] == CStr(s[..])
  {
    ghost var text := CStr(s[..]);
    var i := 0;
    AtEnd(s[..], i);
    while s[i] != '\0'
      invariant i <= |text| && s[..] == old(s[..]) && dst[..at] == old(dst[..at])
      invariant dst[at..at + i] == text[..i]
      invariant s[i] == '\0' <==> i == |text|
      decreases |text| - i
    {
      assert s[i] == text[i];
      dst[at + i] := s[i];
      i := i + 1;
      AtEnd(s[..], i);
    }
  }

  method Cpy(s1: array<char>) returns (ptr: array<char>)
    requires Terminated(s1[..])
    ensures fresh(ptr) && Terminated(ptr[..]) && CStr(ptr[..]) == CStr(s1[..])
  {
    var size := Length(s1);
    ptr := new char[size + 1];
    CopyInto(ptr, 0, s1);
    ptr[size] := '\0';
    assert ptr[..][..size] == ptr[0..0 + size];
    CStrIs(ptr[..], size);
  }

  method JoinFree(s1: array<char>, s2: array<char>) returns (joined: array<char>)
    requires Terminated(s1[..]) && Terminated(s2[..])
    ensures fresh(joined) && Terminated(joined[..]) && CStr(joined[..]) == CStr(s1[..]) + CStr(s2[..])
  {
    var i := Length(s1);
    var x := Length(s2);
    joined := new char[i + x + 1];
    CopyInto(joined, 0, s1);
    assert joined[..i] == joined[0..0 + i];
    CopyInto(joined, i, s2);
    assert joined[..i + x] == joined[..i] + joined[i..i + x];
    joined[i + x] := '\0';
    assert joined[..][..i + x] == CStr(s1[..]) + CStr(s2[..]);
    CStrIs(joined[..], i + x);
  }

  method LineBreak(s: array?<char>) returns (r: bool)
    requires s != null ==> Terminated(s[..])
    ensures r <==> s != null && '\n' in CStr(s[..])
  {
    if s == null {
      return false;
    }
    var i := 0;
    ghost var text := CStr(s[..]);
    AtEnd(s[..], i);
    while s[i] != '\0'
      invariant i <= |text| && '\n' !in text[..i]
      invariant s[i] == '\0' <==> i == |text|
      decreases |text| - i
    {
      assert s[i] == text[i];
      if s[i] == '\n' {
        return true;
      }
      i := i + 1;
      AtEnd(s[..], i);
    }
    assert text[..i] == text;
    return false;
  }

  /** Whether the buffer holds anything. */
  method ReturnValue(s: array?<char>) returns (r: int)
    requires s != null ==> Terminated(s[..])
    ensures r == if s != null && CStr(s[..]) != "" then 1 else 0
  {
    if s == null {
      return 0;
    }
    AtEnd(s[..], 0);
    if s[0] != '\0' {
      return 1;
    }
    return 0;
  }

  // ---------------------------------------------------------------- lines

  function FirstLine(s: string): (line: string)
    ensures |line| <= |s| && line == s[..|line|] && '\n' !in line
    ensures |line| < |s| ==> s[|line|] == '\n'
  {
    if s == "" || s[0] == '\n' then "" else [s[0]] + FirstLine(s[1..])
  }

  function AfterLine(s: string): (rest: string)
    ensures s != "" ==> |rest| < |s|
  {
    var n := |FirstLine(s)|;
    if n < |s| then s[n + 1..] else ""
  }

  /** The file split at its line ends; what follows the last line end is a line unless it is empty. */
  function SplitLines(s: string): seq<string>
    decreases |s|
  {
    if s == "" then [] else [FirstLine(s)] + SplitLines(AfterLine(s))
  }

  function Unsplit(lines: seq<string>): string {
    if lines == [] then "" else lines[0] + "\n" + Unsplit(lines[1..])
  }

  lemma LineAndRest(s: string)
    requires s != ""
    ensures s == FirstLine(s) + "\n" + AfterLine(s) || (s == FirstLine(s) && AfterLine(s) == "")
    ensures |AfterLine(s)| < |s|
  {
  }

  lemma {:induction false} LinesHaveNoBreaks(s: string)
    ensures forall line :: line in SplitLines(s) ==> '\n' !in line
    decreases |s|
  {
    hide FirstLine, AfterLine;
    if s == "" {
    } else {
      LineAndRest(s);
      LinesHaveNoBreaks(AfterLine(s));
    }
  }

  /** The lines put the file back together, with a line end added if the last line had none. */
  lemma {:induction false} SplitLinesRejoins(s: string)
    ensures Unsplit(SplitLines(s)) == if s == "" || s[|s| - 1] == '\n' then s else s + "\n"
    decreases |s|
  {
    hide FirstLine, AfterLine, Unsplit;
    UnsplitNone();
    if s == "" {
    } else {
      LineAndRest(s);
      var line, rest := FirstLine(s), AfterLine(s);
      SplitLinesRejoins(rest);
      UnsplitLine(line, SplitLines(rest));
      if s == line && rest == "" {
        assert '\n' !in s;
        assert SplitLines(rest) == [] && s + "\n" + "" == s + "\n";
      } else if rest == "" {
        assert s == line + "\n";
      } else {
        assert s[|s| - 1] == rest[|rest| - 1];
        assert line + "\n" + (rest + "\n") == line + "\n" + rest + "\n";
      }
    }
  }

  lemma UnsplitNone()
    ensures Unsplit([]) == ""
  {
  }

  lemma UnsplitLine(line: string, lines: seq<string>)
    ensures Unsplit([line] + lines) == line + "\n" + Unsplit(lines)
  {
    assert ([line] + lines)[1..] == lines;
  }

  /** Once the buffered part holds a line end, or nothing is unread, the first pending line lies in that part. */
  lemma LineAcross(held: string, unread: string)
    requires '\n' in held || unread == ""
    ensures FirstLine(held + unread) == FirstLine(held)
    ensures AfterLine(held + unread) == AfterLine(held) + unread
  {
    hide FirstLine;
    var all, line := held + unread, FirstLine(held);
    if unread == "" {
      assert all == held && AfterLine(held) + unread == AfterLine(held);
    } else {
      FirstBreak(held);
      assert all[..|line|] == line && all[|line|] == '\n';
      FirstLineIs(all, line);
      assert all[|line| + 1..] == held[|line| + 1..] + unread;
    }
  }

  lemma FirstBreak(s: string)
    requires '\n' in s
    ensures |FirstLine(s)| < |s|
  {
  }

  lemma {:induction false} FirstLineIs(s: string, line: string)
    requires |line| <= |s| && line == s[..|line|] && '\n' !in line && (|line| < |s| ==> s[|line|] == '\n')
    ensures FirstLine(s) == line
  {
    if line == "" {
    } else {
      assert s[0] == line[0];
      assert s[1..][..|line| - 1] == line[1..];
      FirstLineIs(s[1..], line[1..]);
    }
  }

  /** A line end occurs only as the last character, if at all. */
  predicate OneBreakAtMost(s: string) {
    forall k :: 0 <= k < |s| - 1 ==> s[k] != '\n'
  }

  lemma LastBreak(s: string)
    ensures OneBreakAtMost(s) ==> AfterLine(s) == ""
    ensures s == "" ==> AfterLine(s) == "" && OneBreakAtMost(s)
    ensures s != "" ==> |AfterLine(s)| < |s|
  {
  }

  lemma TakeChunk(held: string, unread: string, n: nat)
    requires n <= |unread|
    ensures |held + CStr(unread[..n])| + |unread[n..]| <= |held| + |unread|
    ensures NulFree(unread) ==> held + CStr(unread[..n]) + unread[n..] == held + unread
    ensures n <= 1 && '\n' !in held ==> OneBreakAtMost(held + CStr(unread[..n]))
  {
    if NulFree(unread) {
      assert CStr(unread[..n]) == unread[..n] by { assert NulFree(unread[..n]); }
      assert unread == unread[..n] + unread[n..];
    }
  }

  method SaveLine(buf: array<char>) returns (newLine: array<char>)
    requires Terminated(buf[..])
    ensures fresh(newLine) && Terminated(newLine[..]) && CStr(newLine[..]) == FirstLine(CStr(buf[..]))
  {
    ghost var text := CStr(buf[..]);
    var size := LineLength(buf);
    newLine := new char[size + 1];
    var i := 0;
    AtEnd(buf[..], i);
    while i < size
      invariant i <= size && newLine[..i] == text[..i]
    {
      assert buf[i] == text[i];
      newLine[i] := buf[i];
      i := i + 1;
    }
    newLine[i] := '\0';
    assert newLine[..][..size] == FirstLine(text);
    CStrIs(newLine[..], size);
  }

  /** The scan for a line end or the NUL. */
  method LineLength(buf: array<char>) returns (size: nat)
    requires Terminated(buf[..])
    ensures size == |FirstLine(CStr(buf[..]))| < buf.Length
    ensures buf[size] == '\n' || buf[size] == '\0'
  {
    ghost var text := CStr(buf[..]);
    size := 0;
    AtEnd(buf[..], size);
    while buf[size] != '\n' && buf[size] != '\0'
      invariant size <= |text| && '\n' !in text[..size]
      invariant buf[size] == '\0' <==> size == |text|
      decreases |text| - size
    {
      assert buf[size] == text[size];
      size := size + 1;
      AtEnd(buf[..], size);
    }
    assert size < |text| ==> buf[size] == text[size];
    FirstLineIs(text, text[..size]);
  }

  method SaveRemainder(buf: array<char>) returns (remainder: array<char>)
    requires Terminated(buf[..])
    ensures fresh(remainder) && Terminated(remainder[..]) && CStr(remainder[..]) == AfterLine(CStr(buf[..]))
  {
    ghost var text, rest := CStr(buf[..]), AfterLine(CStr(buf[..]));
    hide AfterLine, FirstLine, CStr, Terminated;
    var i := LineLength(buf);
    var end := Length(buf);
    var size := end - i;
    remainder := new char[size + 1];
    RemainderStart(text);
    var x := CopyRest(buf, i, size, remainder, rest);
    assert remainder[..][..x] == rest;
    CStrIs(remainder[..], x);
  }

  /** The copying loop: what follows position i, unless i is at the NUL already. */
  method CopyRest(buf: array<char>, i0: nat, size: nat, remainder: array<char>, ghost rest: string) returns (x: nat)
    requires Terminated(buf[..]) && |CStr(buf[..])| < buf.Length && buf != remainder && |rest| < remainder.Length
    requires if size == 0 then rest == ""
             else i0 + 1 == |CStr(buf[..])| - |rest| && rest == CStr(buf[..])[i0 + 1..]
    modifies remainder
    ensures x == |rest| < remainder.Length && remainder[..x] == rest && remainder[x] == '\0'
  {
    hide CStr, Terminated;
    ghost var text := CStr(buf[..]);
    var i := i0;
    x := 0;
    if size != 0 {
      AtEnd(buf[..], i + 1);
    }
    while size != 0 && buf[i + 1] != '\0'
      invariant x <= |rest| && remainder[..x] == rest[..x] && buf[..] == old(buf[..])
      invariant size != 0 ==> i + 1 == |text| - |rest| + x && (buf[i + 1] == '\0' <==> x == |rest|)
      decreases |rest| - x
    {
      assert buf[i + 1] == text[i + 1] == rest[x];
      remainder[x] := buf[i + 1];
      x := x + 1;
      i := i + 1;
      AtEnd(buf[..], i + 1);
    }
    assert rest[..x] == rest;
    remainder[x] := '\0';
  }

  lemma RemainderStart(text: string)
    ensures var n, rest := |FirstLine(text)|, AfterLine(text);
      if n == |text| then rest == "" else n + 1 == |text| - |rest| && rest == text[|text| - |rest|..]
    ensures NulFree(text) ==> NulFree(AfterLine(text))
  {
  }

  // ---------------------------------------------------------------- descriptors and the reader

  /** An open file; read() may return fewer bytes than asked for, but none only at the end. That of an eager
      one, such as a regular file, returns as many as asked for while there are so many. */
  class Descriptor {
    const data: string
    const eager: bool
    var pos: nat

    constructor (data: string, eager: bool)
      ensures this.data == data && this.eager == eager && pos == 0
    {
      this.data, this.eager := data, eager;
      pos := 0;
    }

    ghost predicate Valid()
      reads this
    {
      pos <= |data|
    }

    ghost function Unread(): string
      reads this
      requires Valid()
    {
      data[pos..]
    }

    method Read(b: array<char>, size: nat) returns (res: nat)
      requires Valid() && 1 <= size < b.Length
      modifies this`pos, b
      ensures Valid() && res <= size && pos == old(pos) + res
      ensures res == 0 <==> old(pos) == |data|
      ensures b[..res] == data[old(pos)..pos]
      ensures eager ==> res == Upto(size, |data| - old(pos))
    {
      if pos == |data| {
        return 0;
      }
      res :| 1 <= res <= size && pos + res <= |data| && (eager ==> res == Upto(size, |data| - pos));
      var i := 0;
      while i < res
        invariant 0 <= i <= res && pos == old(pos) && b[..i] == data[pos..pos + i]
      {
        b[i] := data[pos + i];
        i := i + 1;
      }
      pos := pos + res;
    }
  }

  class Reader {
    const bufferSize: nat
    var buf: array?<char>

    constructor (bufferSize: nat)
      requires bufferSize >= 1
      ensures Valid() && buf == null && this.bufferSize == bufferSize
    {
      this.bufferSize := bufferSize;
      buf := null;
    }

    ghost predicate Valid()
      reads this, buf
    {
      bufferSize >= 1 && (buf != null ==> Terminated(buf[..]))
    }

    /** What the static buffer holds over to the next call. */
    ghost function Held(): string
      reads this, buf
    {
      if buf == null then "" else CStr(buf[..])
    }

    /** Append one read to the static buffer. */
    method Fill(fd: Descriptor) returns (res: nat)
      requires Valid() && fd.Valid()
      modifies this, fd
      ensures Valid() && fd.Valid() && buf != null && fresh(buf)
      ensures fd.pos == old(fd.pos) + res && res <= bufferSize
      ensures res == 0 <==> old(fd.Unread()) == ""
      ensures Held() == old(Held()) + CStr(old(fd.Unread())[..res])
      ensures fd.eager && |old(fd.Unread())| <= bufferSize ==> fd.Unread() == ""
    {
      hide CStr, Terminated;
      var b := new char[bufferSize + 1];
      res := fd.Read(b, bufferSize);
      b[res] := '\0';
      ghost var chunk := fd.data[old(fd.pos)..fd.pos];
      assert b[..][..res] == chunk && old(fd.Unread())[..res] == chunk;
      CStrWithNul(b[..], res);
      if buf == null {
        buf := Cpy(b);
      } else {
        buf := JoinFree(buf, b);
      }
    }

    /** The bytes of a descriptor that no call has returned yet, when the held ones are its own. */
    ghost function Pending(fd: Descriptor): string
      reads this, buf, fd
      requires fd.Valid()
    {
      Held() + fd.Unread()
    }

    /** The loop of get_next_line: read until the buffer holds a line end or the file has ended. */
    method FillUntilBreak(fd: Descriptor)
      requires Valid() && fd.Valid()
      modifies this, fd
      ensures Valid() && fd.Valid() && buf != null && (buf == old(buf) || fresh(buf))
      ensures '\n' in Held() || fd.Unread() == ""
      ensures |Pending(fd)| <= |old(Pending(fd))|
      ensures NulFree(fd.data) ==> Pending(fd) == old(Pending(fd))
      ensures bufferSize == 1 && old(Held()) == "" ==> OneBreakAtMost(Held())
      ensures fd.eager && |old(fd.Unread())| <= bufferSize && old(Held()) == "" ==> fd.Unread() == ""
    {
      hide CStr, OneBreakAtMost;
      ghost var pending, start := Pending(fd), Held();
      var found := LineBreak(buf);
      LastBreak("");
      while !found
        invariant Valid() && fd.Valid() && (buf == old(buf) || fresh(buf))
        invariant found <==> buf != null && '\n' in Held()
        invariant |Pending(fd)| <= |pending|
        invariant NulFree(fd.data) ==> Pending(fd) == pending
        invariant bufferSize == 1 && start == "" ==> OneBreakAtMost(Held())
        invariant fd.eager && |old(fd.Unread())| <= bufferSize ==> fd.Unread() == "" || (fd.Unread() == old(fd.Unread()) && Held() == start)
        decreases |fd.Unread()|
      {
        ghost var held, unread := Held(), fd.Unread();
        var res := Fill(fd);
        TakeChunk(held, unread, res);
        assert fd.Unread() == unread[res..];
        assert NulFree(fd.data) ==> NulFree(unread);
        found := LineBreak(buf);
        if res == 0 {
          break;
        }
      }
    }

    /** One call returns the first pending line, 1 while there was anything pending, and keeps the rest pending.
        A file with NULs loses bytes in the C strings, so for it only progress is promised. */
    method GetNextLine(fd: Descriptor) returns (r: int, line: array<char>)
      requires Valid() && fd.Valid()
      modifies this, fd
      ensures Valid() && fd.Valid() && fresh(line) && Terminated(line[..])
      ensures buf == null || fresh(buf)
      ensures r == 0 || r == 1
      ensures r == 1 ==> |Pending(fd)| < |old(Pending(fd))|
      ensures NulFree(fd.data) ==> r == if old(Pending(fd)) == "" then 0 else 1
      ensures NulFree(fd.data) ==> CStr(line[..]) == FirstLine(old(Pending(fd)))
      ensures NulFree(fd.data) ==> Pending(fd) == AfterLine(old(Pending(fd)))
      ensures r == 0 ==> Held() == ""
      ensures bufferSize == 1 && old(Held()) == "" ==> Held() == ""
      ensures fd.eager && |old(fd.Unread())| <= bufferSize && old(Held()) == "" ==> fd.Unread() == ""
    {
      hide CStr, FirstLine, AfterLine, OneBreakAtMost, Terminated;
      FillUntilBreak(fd);
      ghost var held, unread := Held(), fd.Unread();
      LineAcross(held, unread);
      LastBreak(held);
      r, line := TakeLine();
    }

    /** The end of a call: the first line goes out, the rest is kept, and an empty buffer is given up. */
    method TakeLine() returns (r: int, line: array<char>)
      requires Valid() && buf != null
      modifies this
      ensures Valid() && (buf == null || fresh(buf)) && fresh(line) && Terminated(line[..])
      ensures CStr(line[..]) == FirstLine(old(Held())) && Held() == AfterLine(old(Held()))
      ensures r == if old(Held()) == "" then 0 else 1
    {
      hide CStr, FirstLine, AfterLine, OneBreakAtMost, Terminated;
      LastBreak(Held());
      line := SaveLine(buf);
      r := ReturnValue(buf);
      buf := SaveRemainder(buf);
      if r == 0 {
        buf := null;
      }
    }
  }

  lemma {:induction false} CStrWithNul(s: string, n: nat)
    requires n < |s| && s[n] == '\0'
    ensures Terminated(s) && CStr(s) == CStr(s[..n])
  {
    if n == 0 || s[0] == '\0' {
    } else {
      CStrWithNul(s[1..], n - 1);
      assert s[1..][..n - 1] == s[..n][1..];
    }
  }

  // ---------------------------------------------------------------- whole files

  /** The loop of the configuration loaders: call until 0 comes back, keeping every line. */
  method ReadLines(reader: Reader, fd: Descriptor) returns (lines: seq<string>)
    requires reader.Valid() && fd.Valid()
    modifies reader, fd
    ensures reader.Valid() && fd.Valid() && reader.Held() == ""
    ensures reader.buf == null || fresh(reader.buf)
    ensures NulFree(fd.data) ==> lines == SplitLines(old(reader.Pending(fd))) && fd.Unread() == ""
  {
    hide CStr, FirstLine, AfterLine, Terminated, SplitLines, NulFree;
    lines := [];
    ghost var pending := reader.Pending(fd);
    var ret, line := reader.GetNextLine(fd);
    ghost var before := pending;
    assert [] + SplitLines(pending) == SplitLines(pending);
    while ret == 1
      invariant reader.Valid() && fd.Valid() && (ret == 0 || ret == 1) && Terminated(line[..])
      invariant reader.buf == null || fresh(reader.buf)
      invariant ret == 0 ==> reader.Held() == ""
      invariant NulFree(fd.data) ==> ret == (if before == "" then 0 else 1)
      invariant NulFree(fd.data) ==> CStr(line[..]) == FirstLine(before) && reader.Pending(fd) == AfterLine(before)
      invariant NulFree(fd.data) ==> lines + SplitLines(before) == SplitLines(pending)
      decreases ret, |reader.Pending(fd)|
    {
      NextLine(lines, before);
      lines := lines + [CStr(line[..])];
      before := reader.Pending(fd);
      ret, line := reader.GetNextLine(fd);
    }
    LastBreak("");
    NextLine(lines, "");
  }

  lemma NextLine(lines: seq<string>, left: string)
    ensures if left == "" then lines + SplitLines(left) == lines
            else lines + SplitLines(left) == lines + [FirstLine(left)] + SplitLines(AfterLine(left))
  {
  }

  function CountOf(schedule: seq<bool>, which: bool): nat {
    if schedule == [] then 0
    else CountOf(schedule[..|schedule| - 1], which) + (if schedule[|schedule| - 1] == which then 1 else 0)
  }

  function Upto(n: nat, bound: nat): nat {
    if n < bound then n else bound
  }

  /** What n calls have delivered of a file, and what they have left. */
  ghost predicate Delivered(lines: seq<string>, left: string, whole: string, n: nat) {
    lines + SplitLines(left) == SplitLines(whole) && |lines| == Upto(n, |SplitLines(whole)|)
  }

  lemma DeliverOne(lines: seq<string>, left: string, whole: string, n: nat)
    requires Delivered(lines, left, whole, n)
    ensures Delivered(if left == "" then lines else lines + [FirstLine(left)], AfterLine(left), whole, n + 1)
  {
    if left == "" {
      assert SplitLines(left) == [];
      assert |lines + SplitLines(left)| == |lines|;
    } else {
      assert lines + SplitLines(left) == lines + [FirstLine(left)] + SplitLines(AfterLine(left));
      assert |SplitLines(whole)| == |lines| + |SplitLines(left)|;
    }
  }

  method CallOnce(reader: Reader, fd: Descriptor, lines: seq<string>, ghost whole: string, ghost n: nat)
      returns (more: seq<string>)
    requires reader.Valid() && fd.Valid() && reader.bufferSize == 1 && reader.Held() == "" && NulFree(fd.data)
    requires Delivered(lines, fd.Unread(), whole, n)
    modifies reader, fd
    ensures reader.Valid() && fd.Valid() && reader.Held() == "" && (reader.buf == null || fresh(reader.buf))
    ensures Delivered(more, fd.Unread(), whole, n + 1)
  {
    hide CStr, FirstLine, AfterLine, Terminated, SplitLines, Delivered;
    DeliverOne(lines, fd.Unread(), whole, n);
    assert reader.Pending(fd) == fd.Unread();
    var ret, line := reader.GetNextLine(fd);
    assert reader.Pending(fd) == fd.Unread();
    more := if ret == 1 then lines + [CStr(line[..])] else lines;
  }

  /** With BUFFER_SIZE 1, calls on two descriptors in any order give each one its own lines in order:
      the first of them, as many as calls were made on it. */
  method Interleave(reader: Reader, a: Descriptor, b: Descriptor, schedule: seq<bool>)
      returns (fromA: seq<string>, fromB: seq<string>)
    requires reader.Valid() && a.Valid() && b.Valid() && a != b
    requires reader.bufferSize == 1 && reader.Held() == "" && NulFree(a.data) && NulFree(b.data)
    modifies reader, a, b
    ensures reader.Valid() && a.Valid() && b.Valid() && reader.Held() == ""
    ensures Delivered(fromA, a.Unread(), old(a.Unread()), CountOf(schedule, true))
    ensures Delivered(fromB, b.Unread(), old(b.Unread()), CountOf(schedule, false))
  {
    hide CStr, FirstLine, AfterLine, Terminated, SplitLines, Delivered;
    fromA, fromB := [], [];
    ghost var wholeA, wholeB := a.Unread(), b.Unread();
    var i := 0;
    NothingDelivered(wholeA);
    NothingDelivered(wholeB);
    while i < |schedule|
      invariant 0 <= i <= |schedule|
      invariant reader.Valid() && a.Valid() && b.Valid() && reader.Held() == ""
      invariant reader.buf == old(reader.buf) || reader.buf == null || fresh(reader.buf)
      invariant Delivered(fromA, a.Unread(), wholeA, CountOf(schedule[..i], true))
      invariant Delivered(fromB, b.Unread(), wholeB, CountOf(schedule[..i], false))
    {
      assert schedule[..i + 1][..i] == schedule[..i];
      if schedule[i] {
        fromA := CallOnce(reader, a, fromA, wholeA, CountOf(schedule[..i], true));
      } else {
        fromB := CallOnce(reader, b, fromB, wholeB, CountOf(schedule[..i], false));
      }
      i := i + 1;
    }
    assert schedule[..i] == schedule;
  }

  /** One call on an eager file that fits the buffer leaves all that follows its first line in the buffer. */
  method CallReadingAhead(reader: Reader, fd: Descriptor) returns (line: array<char>)
    requires reader.Valid() && fd.Valid() && fd.eager && NulFree(fd.data) && reader.Held() == ""
    requires |fd.Unread()| <= reader.bufferSize
    modifies reader, fd
    ensures reader.Valid() && (reader.buf == null || fresh(reader.buf)) && fresh(line)
    ensures CStr(line[..]) == FirstLine(old(fd.Unread())) && reader.Held() == AfterLine(old(fd.Unread()))
  {
    hide CStr, Terminated, FirstLine, AfterLine;
    assert reader.Pending(fd) == fd.Unread();
    var ret;
    ret, line := reader.GetNextLine(fd);
    assert reader.Pending(fd) == reader.Held();
  }

  /** With any larger buffer, one call on each of two files that fit into it can give the second one a line
      that is not its own: what the first call has read ahead comes before it. */
  method SharedBufferMixes(reader: Reader, a: Descriptor, b: Descriptor) returns (fromA: array<char>, fromB: array<char>)
    requires reader.Valid() && reader.bufferSize >= 2 && reader.Held() == "" && a != b && a.Valid() && b.Valid()
    requires a.eager && a.data == "\nx" && a.pos == 0 && b.data == "y" && b.pos == 0
    modifies reader, a, b
    ensures SplitLines(a.data) == ["", "x"] && CStr(fromA[..]) == ""
    ensures SplitLines(b.data) == ["y"] && CStr(fromB[..]) == "xy"
  {
    hide CStr, Terminated, SplitLines, FirstLine, AfterLine;
    SmallFiles();
    assert a.Unread() == "\nx";
    fromA := CallReadingAhead(reader, a);
    assert reader.Pending(b) == "x" + "y" == "xy";
    var ret;
    ret, fromB := reader.GetNextLine(b);
  }

  lemma SmallFiles()
    ensures SplitLines("\nx") == ["", "x"] && FirstLine("\nx") == "" && AfterLine("\nx") == "x"
    ensures SplitLines("y") == ["y"] && FirstLine("xy") == "xy"
  {
    assert "\nx"[1..] == "x" && "x"[1..] == "" && "y"[1..] == "" && "xy"[1..] == "y";
    assert FirstLine("x") == "x" && FirstLine("y") == "y";
    assert AfterLine("x") == "" && AfterLine("y") == "";
    assert SplitLines("") == [] && SplitLines("x") == ["x"] + SplitLines("");
  }

  lemma NothingDelivered(whole: string)
    ensures Delivered([], whole, whole, CountOf([], true)) && Delivered([], whole, whole, CountOf([], false))
  {
    assert [] + SplitLines(whole) == SplitLines(whole);
  }
}

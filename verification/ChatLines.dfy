/** The lines of the chat server: what ex_msg makes of a received text, given what earlier texts left in
    the line buffer that all clients share. */
module ChatLines {
  import opened ChatProtocol

  // ---------------------------------------------------------------- from a clean line buffer

  /** The complete lines of acc + text, each with its line end, when acc has none. */
  function Lines(acc: string, text: string): seq<string>
    decreases |text|
  {
    if text == "" then []
    else if text[0] == '\n' then [acc + "\n"] + Lines("", text[1..])
    else Lines(acc + [text[0]], text[1..])
  }

  /** What follows the last line end. */
  function Rest(acc: string, text: string): string
    decreases |text|
  {
    if text == "" then acc
    else if text[0] == '\n' then Rest("", text[1..])
    else Rest(acc + [text[0]], text[1..])
  }

  function Joined(lines: seq<string>): string {
    if lines == [] then "" else lines[0] + Joined(lines[1..])
  }

  predicate CompleteLines(text: string) {
    text == "" || text[|text| - 1] == '\n'
  }

  predicate IsLine(line: string) {
    line != "" && line[|line| - 1] == '\n' && '\n' !in line[..|line| - 1]
  }

  /** Nothing is lost or repeated. */
  lemma {:induction false} LinesPartitionText(acc: string, text: string)
    ensures Joined(Lines(acc, text)) + Rest(acc, text) == acc + text
    decreases |text|
  {
    if text == "" {
      assert acc + text == acc;
    } else if text[0] == '\n' {
      LinesPartitionText("", text[1..]);
      var line, more := acc + "\n", Lines("", text[1..]);
      assert Joined([line] + more) == line + Joined(more);
      assert acc + text == line + ("" + text[1..]);
      assert line + Joined(more) + Rest("", text[1..]) == line + (Joined(more) + Rest("", text[1..]));
    } else {
      assert acc + text == (acc + [text[0]]) + text[1..];
      LinesPartitionText(acc + [text[0]], text[1..]);
    }
  }

  lemma {:induction false} LinesAreLines(acc: string, text: string)
    requires '\n' !in acc
    ensures forall line :: line in Lines(acc, text) ==> IsLine(line)
    decreases |text|
  {
    if text == "" {
    } else {
      if text[0] == '\n' {
        LinesAreLines("", text[1..]);
        assert (acc + "\n")[..|acc|] == acc;
      } else {
        LinesAreLines(acc + [text[0]], text[1..]);
      }
    }
  }

  /** The remainder is empty exactly when the text ends with its last line. */
  lemma {:induction false} RestOfCompleteLines(acc: string, text: string)
    requires '\n' !in acc
    ensures Rest(acc, text) == "" <==> (if text == "" then acc == "" else text[|text| - 1] == '\n')
    decreases |text|
  {
    if text == "" {
    } else {
      var tail := text[1..];
      assert tail != "" ==> tail[|tail| - 1] == text[|text| - 1];
      RestOfCompleteLines(if text[0] == '\n' then "" else acc + [text[0]], tail);
    }
  }

  function Saids(id: int, lines: seq<string>): seq<Event> {
    if lines == [] then [] else [Said(id, lines[0])] + Saids(id, lines[1..])
  }

  /** From a line buffer without leftovers, ex_msg announces each complete line once, in order, and keeps the rest. */
  lemma {:induction false} SayAnnouncesLines(c: Chat, fd: int, text: string)
    ensures var d := Say(c, fd, |c.line|, text);
      && d.history == c.history + Saids(IdOf(c.members, fd), Lines(c.line, text))
      && d.line == Rest(c.line, text)
    decreases |text|
  {
    hide Deliver, Text;
    var id := IdOf(c.members, fd);
    if text == "" {
      assert c.history + Saids(id, []) == c.history;
    } else {
      var line := c.line + [text[0]];
      assert Put(c.line, |c.line|, text[0]) == line;
      if text[0] == '\n' {
        var d := Announce(c, fd, Said(id, line)).(line := "");
        SayAnnouncesLines(d, fd, text[1..]);
        var more := Lines("", text[1..]);
        assert Saids(id, [line] + more) == [Said(id, line)] + Saids(id, more);
        assert c.history + ([Said(id, line)] + Saids(id, more)) == d.history + Saids(id, more);
      } else {
        SayAnnouncesLines(c.(line := line), fd, text[1..]);
      }
    }
  }

  // ---------------------------------------------------------------- from any line buffer

  /** s written over line from position j on; what lies beyond stays. */
  function Over(line: string, j: nat, s: string): string
    requires j <= |line|
  {
    line[..j] + s + (if j + |s| <= |line| then line[j + |s|..] else "")
  }

  /** The first line of a text with its line end. */
  function FirstLine(text: string): (line: string)
    requires '\n' in text
    ensures 0 < |line| <= |text| && line == text[..|line|]
    ensures IsLine(line)
  {
    if text[0] == '\n' then "\n" else [text[0]] + FirstLine(text[1..])
  }

  /** What is announced as lines: the first one has been written over the line buffer's old contents. */
  function Announced(line: string, j: nat, text: string): seq<string>
    requires j <= |line|
  {
    if '\n' !in text then []
    else [Over(line, j, FirstLine(text))] + Lines("", text[|FirstLine(text)|..])
  }

  /** What stays in the line buffer. */
  function Leftover(line: string, j: nat, text: string): string
    requires j <= |line|
  {
    if '\n' in text then Rest("", text) else Over(line, j, text)
  }

  lemma OverStep(line: string, j: nat, c: char, s: string)
    requires j <= |line|
    ensures Over(line, j, [c] + s) == Over(Put(line, j, c), j + 1, s)
    ensures Over(line, j, "") == line
  {
    var put := Put(line, j, c);
    assert put[..j + 1] == line[..j] + [c];
    if j + 1 + |s| <= |line| {
      assert put[j + 1 + |s|..] == line[j + 1 + |s|..];
    }
    assert line[..j] + ([c] + s) == line[..j] + [c] + s;
  }

  lemma AnnouncedStep(line: string, j: nat, text: string)
    requires j <= |line| && text != "" && text[0] != '\n'
    ensures Announced(line, j, text) == Announced(Put(line, j, text[0]), j + 1, text[1..])
    ensures Leftover(line, j, text) == Leftover(Put(line, j, text[0]), j + 1, text[1..])
  {
    hide Over, Lines;
    assert text == [text[0]] + text[1..];
    if '\n' in text {
      assert '\n' in text[1..];
      OverStep(line, j, text[0], FirstLine(text[1..]));
      assert Rest("", text) == Rest("", text[1..]) by {
        RestForgets("", text);
        RestForgets("", text[1..]);
      }
      assert text[|FirstLine(text)|..] == text[1..][|FirstLine(text[1..])|..];
    } else {
      OverStep(line, j, text[0], text[1..]);
    }
  }

  /** Once there is a line end, the remainder does not depend on what came before. */
  lemma {:induction false} RestForgets(acc: string, text: string)
    ensures '\n' in text ==> Rest(acc, text) == Rest("", text[|FirstLine(text)|..])
    decreases |text|
  {
    if text == "" {
    } else if text[0] == '\n' {
    } else {
      RestForgets(acc + [text[0]], text[1..]);
      assert '\n' in text ==> text[|FirstLine(text)|..] == text[1..][|FirstLine(text[1..])|..];
    }
  }

  /** From any line buffer: ex_msg announces exactly these lines and leaves exactly this behind. */
  lemma {:induction false} SayAnnounces(c: Chat, fd: int, j: nat, text: string)
    requires j <= |c.line|
    ensures var d := Say(c, fd, j, text);
      && d.history == c.history + Saids(IdOf(c.members, fd), Announced(c.line, j, text))
      && d.line == Leftover(c.line, j, text)
    decreases |text|
  {
    hide Deliver, Text, Over, Announced, Leftover;
    var id := IdOf(c.members, fd);
    if text == "" {
      NothingAnnounced(c.line, j);
      assert c.history + Saids(id, []) == c.history;
    } else {
      var line := Put(c.line, j, text[0]);
      SayStep(c, fd, j, text);
      if text[0] == '\n' {
        var d := Announce(c, fd, Said(id, line)).(line := "");
        SayAnnouncesLines(d, fd, text[1..]);
        FirstAnnounced(c.line, j, text);
        var more := Lines("", text[1..]);
        assert Saids(id, [line] + more) == [Said(id, line)] + Saids(id, more);
        assert c.history + ([Said(id, line)] + Saids(id, more)) == d.history + Saids(id, more);
      } else {
        AnnouncedStep(c.line, j, text);
        SayAnnounces(c.(line := line), fd, j + 1, text[1..]);
      }
    }
  }

  lemma NothingAnnounced(line: string, j: nat)
    requires j <= |line|
    ensures Announced(line, j, "") == [] && Leftover(line, j, "") == line
  {
    OverStep(line, j, 'x', "");
  }

  lemma FirstAnnounced(line: string, j: nat, text: string)
    requires j <= |line| && text != "" && text[0] == '\n'
    ensures Announced(line, j, text) == [Put(line, j, '\n')] + Lines("", text[1..])
    ensures Leftover(line, j, text) == Rest("", text[1..])
  {
    hide Over, Lines;
    OverStep(line, j, '\n', "");
    OverStep(Put(line, j, '\n'), j + 1, 'x', "");
    assert "\n" + "" == "\n";
  }

  lemma {:induction false} LinesStartWithFirst(acc: string, text: string)
    requires '\n' in text
    ensures Lines(acc, text) == [acc + FirstLine(text)] + Lines("", text[|FirstLine(text)|..])
    decreases |text|
  {
    if text[0] == '\n' {
    } else {
      LinesStartWithFirst(acc + [text[0]], text[1..]);
      assert acc + [text[0]] + FirstLine(text[1..]) == acc + FirstLine(text);
      assert text[|FirstLine(text)|..] == text[1..][|FirstLine(text[1..])|..];
    }
  }

  lemma {:induction false} SaidsEqual(id: int, a: seq<string>, b: seq<string>)
    ensures Saids(id, a) == Saids(id, b) <==> a == b
    ensures |Saids(id, a)| == |a|
  {
    if a == [] || b == [] {
      SaidsLength(id, a);
      SaidsLength(id, b);
    } else {
      SaidsEqual(id, a[1..], b[1..]);
      assert a == [a[0]] + a[1..] && b == [b[0]] + b[1..];
      assert Saids(id, a)[0] == Said(id, a[0]) && Saids(id, b)[0] == Said(id, b[0]);
      assert Saids(id, a)[1..] == Saids(id, a[1..]) && Saids(id, b)[1..] == Saids(id, b[1..]);
    }
  }

  lemma {:induction false} SaidsLength(id: int, lines: seq<string>)
    ensures |Saids(id, lines)| == |lines|
  {
    if lines == [] {
    } else {
      SaidsLength(id, lines[1..]);
    }
  }

  /** A line written over the buffer's old contents is the sender's line exactly when the sender had not begun
      it in an earlier text and the old contents do not reach beyond it. */
  lemma FirstLineRight(line: string, acc: string, first: string)
    requires '\n' !in acc && IsLine(first)
    ensures Over(line, 0, first) == acc + first <==> acc == "" && |line| <= |first|
  {
    var over, n := Over(line, 0, first), |first|;
    assert over[n - 1] == first[n - 1] == '\n';
    if acc == "" {
      assert acc + first == first && |over| == if n <= |line| then |line| else n;
    } else if n - 1 < |acc| {
      assert (acc + first)[n - 1] == acc[n - 1];
    } else {
      assert (acc + first)[n - 1] == first[..n - 1][n - 1 - |acc|];
    }
  }

  lemma AnnouncedAsSent(line: string, acc: string, text: string)
    requires '\n' !in acc
    ensures Announced(line, 0, text) == Lines(acc, text) <==>
      ('\n' !in text || (acc == "" && |line| <= |FirstLine(text)|))
    ensures |Announced(line, 0, text)| == |Lines(acc, text)|
  {
    hide Over, Lines;
    if '\n' in text {
      var first, more := FirstLine(text), Lines("", text[|FirstLine(text)|..]);
      LinesStartWithFirst(acc, text);
      FirstLineRight(line, acc, first);
      assert Announced(line, 0, text)[0] == Over(line, 0, first) && Lines(acc, text)[0] == acc + first;
    } else {
      LinesOfNone(acc, text);
    }
  }

  /** With acc the unfinished line of earlier texts of the same client: the lines that end in this text are
      announced as the client sent them exactly when the text has no line end, or the client had not begun the
      first of them before and nothing older in the line buffer reaches beyond it. */
  lemma AnnouncedExactlyWhenShort(c: Chat, fd: int, acc: string, text: string)
    requires '\n' !in acc
    ensures Say(c, fd, 0, text).history == c.history + Saids(IdOf(c.members, fd), Lines(acc, text))
       <==> ('\n' !in text || (acc == "" && |c.line| <= |FirstLine(text)|))
  {
    hide Say, Lines, Announced;
    var id := IdOf(c.members, fd);
    SayAnnounces(c, fd, 0, text);
    var said, sent := Saids(id, Announced(c.line, 0, text)), Saids(id, Lines(acc, text));
    assert (c.history + said)[|c.history|..] == said && (c.history + sent)[|c.history|..] == sent;
    SaidsEqual(id, Announced(c.line, 0, text), Lines(acc, text));
    AnnouncedAsSent(c.line, acc, text);
  }

  lemma {:induction false} LinesOfNone(acc: string, text: string)
    requires '\n' !in text
    ensures Lines(acc, text) == []
    decreases |text|
  {
    if text == "" {
    } else {
      LinesOfNone(acc + [text[0]], text[1..]);
    }
  }

  /** A received text leaves a clean line buffer exactly when it ends its last line, or when it is empty and
      the buffer was clean before. */
  lemma CleanAfterExactlyComplete(c: Chat, fd: int, text: string)
    ensures Say(c, fd, 0, text).line == "" <==> CompleteLines(text) && (text == "" ==> c.line == "")
  {
    SayAnnounces(c, fd, 0, text);
    if '\n' in text {
      RestOfCompleteLines("", text);
    } else {
      assert |Over(c.line, 0, text)| >= |c.line| && |Over(c.line, 0, text)| >= |text|;
    }
  }

  /** An unfinished line is partly overwritten by the next text, from whichever client: its tail is announced
      as part of that client's line. */
  lemma LeftoverLeaks(c: Chat, fd: int, other: int)
    requires c.line == ""
    ensures var d := Say(c, fd, 0, "abc");
      && Say(d, other, 0, "x\n").history == c.history + [Said(IdOf(c.members, other), "x\nc")]
      && Lines("", "x\n") == ["x\n"]
  {
    hide Deliver, Text, Say;
    var d, id := Say(c, fd, 0, "abc"), IdOf(c.members, other);
    SayKeeps(c, fd, 0, "abc");
    SayAnnounces(c, fd, 0, "abc");
    assert Over("", 0, "abc") == "abc";
    assert d.line == "abc" && d.history == c.history + Saids(IdOf(c.members, fd), []) == c.history;
    SayAnnounces(d, other, 0, "x\n");
    assert "x\n"[1..] == "\n" && "x\n"[2..] == "" && FirstLine("x\n") == "x\n";
    LinesStartWithFirst("", "x\n");
    assert Lines("", "") == [] && "" + "x\n" == "x\n";
    assert Over("abc", 0, "x\n") == "x\nc";
    assert Saids(id, ["x\nc"]) == [Said(id, "x\nc")] + Saids(id, []);
  }

  // ---------------------------------------------------------------- every run

  /** What the server does to one client; a text is known by its sender's id, which is never used again. */
  datatype Act = Came(id: int) | Went(id: int) | Talked(id: int, text: string)

  /** The acts of the loop over descriptors from fd on. */
  function SweepActs(c: Chat, t: Tour, fd: nat): seq<Act>
    decreases MaxFd(c.members, c.sock) + 1 - fd
  {
    if fd > MaxFd(c.members, c.sock) then []
    else if fd !in t.ready then SweepActs(c, t, fd + 1)
    else if fd == c.sock then [Came(c.nextId)]
    else if fd !in t.input || t.input[fd] == "" then [Went(IdOf(c.members, fd))]
    else
      SayKeeps(c, fd, 0, t.input[fd]);
      [Talked(IdOf(c.members, fd), t.input[fd])] + SweepActs(Say(c, fd, 0, t.input[fd]), t, fd + 1)
  }

  /** The acts of a run. */
  function Acts(sock: int, tours: seq<Tour>): seq<Act> {
    if tours == [] then []
    else
      var c := Run(Start(sock), tours[..|tours| - 1]);
      Acts(sock, tours[..|tours| - 1]) + SweepActs(c.(writable := c.open), tours[|tours| - 1], 0)
  }

  /** The line that a client has begun in its texts so far and not ended. */
  function Begun(acts: seq<Act>, id: int): (acc: string)
    ensures '\n' !in acc
  {
    if acts == [] then ""
    else
      var init, last := acts[..|acts| - 1], acts[|acts| - 1];
      if last.Talked? && last.id == id then
        RestHasNoBreak(Begun(init, id), last.text);
        Rest(Begun(init, id), last.text)
      else Begun(init, id)
  }

  lemma {:induction false} RestHasNoBreak(acc: string, text: string)
    requires '\n' !in acc
    ensures '\n' !in Rest(acc, text)
    decreases |text|
  {
    if text == "" {
    } else {
      RestHasNoBreak(if text[0] == '\n' then "" else acc + [text[0]], text[1..]);
    }
  }

  /** What all clients' texts so far leave in the line buffer. */
  function Buffer(acts: seq<Act>): string {
    if acts == [] then ""
    else
      var init, last := acts[..|acts| - 1], acts[|acts| - 1];
      if last.Talked? then Leftover(Buffer(init), 0, last.text) else Buffer(init)
  }

  /** An arrival or a departure ends its turn: only the last act of a turn can be one. */
  lemma {:induction false} ChangeEndsTurn(c: Chat, t: Tour, fd: nat, k: nat)
    requires k + 1 < |SweepActs(c, t, fd)|
    ensures SweepActs(c, t, fd)[k].Talked?
    decreases MaxFd(c.members, c.sock) + 1 - fd
  {
    hide Say, IdOf;
    if fd !in t.ready {
      ChangeEndsTurn(c, t, fd + 1, k);
    } else if k > 0 {
      SayKeeps(c, fd, 0, t.input[fd]);
      ChangeEndsTurn(Say(c, fd, 0, t.input[fd]), t, fd + 1, k - 1);
    }
  }

  /** What an act is to be announced as: an arrival, a departure, or the lines that end in a text, each whole. */
  function SentOf(before: seq<Act>, act: Act): seq<Event> {
    match act
    case Came(id) => [Arrived(id)]
    case Went(id) => [Left(id)]
    case Talked(id, text) => Saids(id, Lines(Begun(before, id), text))
  }

  /** What it is announced as. */
  function AnnouncedOf(before: seq<Act>, act: Act): seq<Event> {
    match act
    case Came(id) => [Arrived(id)]
    case Went(id) => [Left(id)]
    case Talked(id, text) => Saids(id, Announced(Buffer(before), 0, text))
  }

  function Sent(acts: seq<Act>): seq<Event> {
    if acts == [] then [] else Sent(acts[..|acts| - 1]) + SentOf(acts[..|acts| - 1], acts[|acts| - 1])
  }

  function AllAnnounced(acts: seq<Act>): seq<Event> {
    if acts == [] then [] else AllAnnounced(acts[..|acts| - 1]) + AnnouncedOf(acts[..|acts| - 1], acts[|acts| - 1])
  }

  /** The history and the line buffer are those of these acts. */
  predicate Follows(c: Chat, acts: seq<Act>) {
    c.history == AllAnnounced(acts) && c.line == Buffer(acts)
  }

  lemma NextAct(acts: seq<Act>, act: Act)
    ensures AllAnnounced(acts + [act]) == AllAnnounced(acts) + AnnouncedOf(acts, act)
    ensures Sent(acts + [act]) == Sent(acts) + SentOf(acts, act)
    ensures Buffer(acts + [act]) == if act.Talked? then Leftover(Buffer(acts), 0, act.text) else Buffer(acts)
  {
    hide AnnouncedOf, SentOf, Leftover;
    assert (acts + [act])[..|acts|] == acts;
  }

  lemma TextFollows(c: Chat, fd: int, text: string, acts: seq<Act>)
    requires Follows(c, acts)
    ensures Follows(Say(c, fd, 0, text), acts + [Talked(IdOf(c.members, fd), text)])
  {
    hide Say, Announced, Leftover, Buffer, AllAnnounced;
    SayAnnounces(c, fd, 0, text);
    NextAct(acts, Talked(IdOf(c.members, fd), text));
  }

  lemma ArrivalFollows(c: Chat, fd: int, acts: seq<Act>)
    requires Follows(c, acts)
    ensures Follows(Accept(c, fd), acts + [Came(c.nextId)])
  {
    hide Deliver, Text, Buffer, AllAnnounced;
    NextAct(acts, Came(c.nextId));
  }

  lemma DepartureFollows(c: Chat, fd: int, acts: seq<Act>)
    requires Follows(c, acts)
    ensures Follows(Leave(c, fd), acts + [Went(IdOf(c.members, fd))])
  {
    hide Deliver, Text, Buffer, AllAnnounced, Without;
    NextAct(acts, Went(IdOf(c.members, fd)));
  }

  lemma {:induction false} SweepFollows(c: Chat, t: Tour, fd: nat, acts: seq<Act>)
    requires Follows(c, acts)
    ensures Follows(Sweep(c, t, fd), acts + SweepActs(c, t, fd))
    decreases MaxFd(c.members, c.sock) + 1 - fd
  {
    hide Follows, Say, Accept, Leave, IdOf;
    if fd > MaxFd(c.members, c.sock) {
      assert acts + [] == acts;
    } else if fd !in t.ready {
      SweepFollows(c, t, fd + 1, acts);
    } else if fd == c.sock {
      ArrivalFollows(c, t.newFd, acts);
    } else if fd !in t.input || t.input[fd] == "" {
      DepartureFollows(c, fd, acts);
    } else {
      var d, act := Say(c, fd, 0, t.input[fd]), Talked(IdOf(c.members, fd), t.input[fd]);
      TextFollows(c, fd, t.input[fd], acts);
      SayKeeps(c, fd, 0, t.input[fd]);
      SweepFollows(d, t, fd + 1, acts + [act]);
      assert acts + ([act] + SweepActs(d, t, fd + 1)) == acts + [act] + SweepActs(d, t, fd + 1);
    }
  }

  /** Over every run the history and the line buffer are those of its acts. */
  lemma {:induction false} RunFollows(sock: int, tours: seq<Tour>)
    ensures Follows(Run(Start(sock), tours), Acts(sock, tours))
  {
    hide Sweep, SweepActs;
    if tours == [] {
    } else {
      var init := tours[..|tours| - 1];
      RunFollows(sock, init);
      var c := Run(Start(sock), init);
      SweepFollows(c.(writable := c.open), tours[|tours| - 1], 0, Acts(sock, init));
    }
  }

  /** No line ends in this text, or its first one is begun in it and covers what the line buffer holds. */
  predicate EndsOwnLine(acts: seq<Act>, k: nat)
    requires k < |acts|
  {
    acts[k].Talked? ==>
      '\n' !in acts[k].text ||
      (Begun(acts[..k], acts[k].id) == "" && |Buffer(acts[..k])| <= |FirstLine(acts[k].text)|)
  }

  lemma SameTails<T>(a: seq<T>, b: seq<T>, x: seq<T>, y: seq<T>)
    requires |x| == |y|
    ensures a + x == b + y <==> a == b && x == y
  {
    if a + x == b + y {
      assert |a| == |b| && a == (a + x)[..|a|] && b == (b + y)[..|b|];
      assert x == (a + x)[|a|..] && y == (b + y)[|b|..];
    }
  }

  lemma ActAnnouncedAsSent(acts: seq<Act>, act: Act)
    ensures AnnouncedOf(acts, act) == SentOf(acts, act) <==> EndsOwnLine(acts + [act], |acts|)
    ensures |AnnouncedOf(acts, act)| == |SentOf(acts, act)|
  {
    hide Announced, Lines, Begun, Buffer;
    assert (acts + [act])[..|acts|] == acts;
    if act.Talked? {
      var said, sent := Announced(Buffer(acts), 0, act.text), Lines(Begun(acts, act.id), act.text);
      AnnouncedAsSent(Buffer(acts), Begun(acts, act.id), act.text);
      SaidsEqual(act.id, said, sent);
      SaidsLength(act.id, sent);
    }
  }

  lemma {:induction false} AnnouncedIsSent(acts: seq<Act>)
    ensures AllAnnounced(acts) == Sent(acts) <==> forall k :: 0 <= k < |acts| ==> EndsOwnLine(acts, k)
    ensures |AllAnnounced(acts)| == |Sent(acts)|
  {
    hide AnnouncedOf, SentOf, EndsOwnLine;
    if acts == [] {
    } else {
      var init, last := acts[..|acts| - 1], acts[|acts| - 1];
      assert acts == init + [last];
      AnnouncedIsSent(init);
      ActAnnouncedAsSent(init, last);
      SameTails(AllAnnounced(init), Sent(init), AnnouncedOf(init, last), SentOf(init, last));
      forall k | 0 <= k < |init|
        ensures EndsOwnLine(acts, k) <==> EndsOwnLine(init, k)
      {
        EndsOwnEarlier(acts, k);
      }
    }
  }

  lemma EndsOwnEarlier(acts: seq<Act>, k: nat)
    requires k + 1 < |acts|
    ensures EndsOwnLine(acts, k) <==> EndsOwnLine(acts[..|acts| - 1], k)
  {
    assert acts[..|acts| - 1][..k] == acts[..k];
  }

  /** In every run, with arrivals and departures and descriptors used again: what is announced are the arrivals,
      the departures and the lines that the clients sent, if and only if every text that ends a line begins that
      line itself and its first line covers what the texts before it have left in the buffer. */
  lemma AllAnnouncedExactlyWhen(sock: int, tours: seq<Tour>)
    ensures var acts := Acts(sock, tours);
      Run(Start(sock), tours).history == Sent(acts) <==> forall k :: 0 <= k < |acts| ==> EndsOwnLine(acts, k)
  {
    hide Run, Acts, EndsOwnLine, Sent, AllAnnounced;
    RunFollows(sock, tours);
    AnnouncedIsSent(Acts(sock, tours));
  }

  /** A client's own continuation overwrites its unfinished line: of "hello" in two texts, "lo" is announced. */
  lemma ContinuationOverwrites(c: Chat, fd: int)
    requires c.line == ""
    ensures var d, id := Say(c, fd, 0, "hel"), IdOf(c.members, fd);
      && Say(d, fd, 0, "lo\n").history == c.history + [Said(id, "lo\n")]
      && Sent([Talked(id, "hel"), Talked(id, "lo\n")]) == [Said(id, "hello\n")]
  {
    hide Say, Announced, Leftover, Saids, Sent;
    var d, id := Say(c, fd, 0, "hel"), IdOf(c.members, fd);
    LoOverHel();
    OneSaid(id, "lo\n");
    SayKeeps(c, fd, 0, "hel");
    SayAnnounces(c, fd, 0, "hel");
    assert d.history == c.history + [] == c.history;
    SayAnnounces(d, fd, 0, "lo\n");
    ContinuationSent(id);
  }

  lemma OneSaid(id: int, line: string)
    ensures Saids(id, [line]) == [Said(id, line)] && Saids(id, []) == []
  {
  }

  lemma LoOverHel()
    ensures Leftover("", 0, "hel") == "hel" && Announced("", 0, "hel") == []
    ensures Announced("hel", 0, "lo\n") == ["lo\n"]
  {
    hide Lines;
    LoLine();
    assert Over("", 0, "hel") == "hel" && Over("hel", 0, "lo\n") == "lo\n";
  }

  lemma ContinuationSent(id: int)
    ensures Sent([Talked(id, "hel"), Talked(id, "lo\n")]) == [Said(id, "hello\n")]
  {
    hide Saids, Lines, Rest;
    var a, b := Talked(id, "hel"), Talked(id, "lo\n");
    LoLine();
    OneSaid(id, "hello\n");
    RestOf("", "hel");
    LinesOfNone("", "hel");
    assert [a, b][..1] == [a] && [a][..0] == [] && "" + "hel" == "hel";
    assert Begun([], id) == "" && Begun([a], id) == "hel";
    assert Sent([]) == [] && Sent([a]) == [] + Saids(id, []);
    assert Sent([a, b]) == [] + Saids(id, ["hello\n"]);
  }

  lemma LoLine()
    ensures FirstLine("lo\n") == "lo\n" && Lines("hel", "lo\n") == ["hello\n"] && Lines("", "") == [] && "lo\n"[3..] == ""
  {
    assert "lo\n"[1..] == "o\n" && "o\n"[1..] == "\n" && "lo\n"[3..] == "";
    assert FirstLine("\n") == "\n" && FirstLine("o\n") == "o\n";
    LinesStartWithFirst("hel", "lo\n");
    assert "hel" + "lo\n" == "hello\n";
  }

  lemma {:induction false} RestOf(acc: string, text: string)
    requires '\n' !in text
    ensures Rest(acc, text) == acc + text
    decreases |text|
  {
    if text == "" {
      assert acc + text == acc;
    } else {
      RestOf(acc + [text[0]], text[1..]);
      assert acc + [text[0]] + text[1..] == acc + text;
    }
  }

  predicate CompleteTour(t: Tour) {
    forall fd :: fd in t.input ==> CompleteLines(t.input[fd])
  }

  lemma {:induction false} SweepKeepsCleanLine(c: Chat, t: Tour, fd: nat)
    requires c.line == "" && CompleteTour(t)
    ensures Sweep(c, t, fd).line == ""
    decreases MaxFd(c.members, c.sock) + 1 - fd
  {
    hide Say, Deliver, Without, CompleteLines;
    if fd > MaxFd(c.members, c.sock) {
    } else {
      if fd !in t.ready {
        SweepKeepsCleanLine(c, t, fd + 1);
      } else if fd == c.sock || fd !in t.input || t.input[fd] == "" {
      } else {
        SayKeeps(c, fd, 0, t.input[fd]);
        CleanAfterExactlyComplete(c, fd, t.input[fd]);
        SweepKeepsCleanLine(Say(c, fd, 0, t.input[fd]), t, fd + 1);
      }
    }
  }

  /** When every received text is made of complete lines, the line buffer is clean at every loop top. */
  lemma {:induction false} RunKeepsCleanLine(sock: int, tours: seq<Tour>)
    requires forall t :: t in tours ==> CompleteTour(t)
    ensures Run(Start(sock), tours).line == ""
  {
    hide Sweep, CompleteTour;
    if tours == [] {
    } else {
      RunKeepsCleanLine(sock, tours[..|tours| - 1]);
      var c := Run(Start(sock), tours[..|tours| - 1]);
      SweepKeepsCleanLine(c.(writable := c.open), tours[|tours| - 1], 0);
    }
  }
}

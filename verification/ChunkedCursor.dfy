/** When the cursor loop of header_handler::parse_body ends, and when it does not. */
module ChunkedCursor {
  import opened Strings
  import opened Numbers
  import opened ChunkedBody

  // ---------------------------------------------------------------- one turn

  /** The size that is read at a position. */
  function SizeAt(str: string, pos: nat): int32
    requires pos <= |str|
  {
    HexToDec(Substr(str, pos, Find(str, CRLF, pos) - pos), 16)
  }

  /** When the loop goes on from a position: the size is not zero, and without a line end the position is 0 or 1. */
  lemma GoesOn(str: string, pos: int32)
    requires TurnAt(str, pos, FromStart).Go?
    ensures 0 <= pos <= |str| && SizeAt(str, pos) != 0 && (Find(str, CRLF, pos) == -1 ==> pos <= 1)
    ensures TurnAt(str, pos, FromStart).next == ToInt32(Find(str, CRLF, pos) + SizeAt(str, pos) + 4)
  {
    hide Find, HexToDec, ToInt32, Substr;
  }

  /** A position that does not fit wraps around to a negative one. */
  lemma NextPosition(raw: int)
    requires 0 <= raw <= INT_MAX + INT_MAX
    ensures if raw <= INT_MAX then ToInt32(raw) == raw else ToInt32(raw) < 0
  {
    if raw <= INT_MAX {
      InRange(raw);
    } else {
      ToInt32Congruent(raw, raw - TWO32, 1);
      InRange(raw - TWO32);
    }
  }

  /** The size read at a position ends the loop or takes the cursor past the position. */
  predicate TakesForward(str: string, pos: nat)
    requires pos <= |str|
  {
    SizeAt(str, pos) == 0 || SizeAt(str, pos) > -(Find(str, CRLF, pos) - pos + 4)
  }

  lemma MovesForward(str: string, pos: int32)
    requires |str| <= INT_MAX - 4 && TurnAt(str, pos, FromStart).Go?
    requires 0 <= pos <= |str| ==> TakesForward(str, pos)
    ensures var next := TurnAt(str, pos, FromStart).next; next < 0 || next > pos
  {
    hide TurnAt, SizeAt, Find, ToInt32;
    GoesOn(str, pos);
    FindFits(str, pos);
    NextPosition(Find(str, CRLF, pos) + SizeAt(str, pos) + 4);
  }

  lemma FindFits(str: string, pos: nat)
    ensures Find(str, CRLF, pos) == -1 || pos <= Find(str, CRLF, pos) <= |str| - 2
  {
  }

  /** The cursor stays where it is exactly on a size that takes it back over the size line: minus the length
      of the line, of its line end and of the one after the data. */
  lemma StaysExactly(str: string, pos: int32)
    requires |str| <= INT_MAX - 4 && TurnAt(str, pos, FromStart).Go?
    ensures TurnAt(str, pos, FromStart).next == pos <==> SizeAt(str, pos) == -(Find(str, CRLF, pos) - pos + 4)
  {
    hide TurnAt, SizeAt, Find, ToInt32;
    GoesOn(str, pos);
    FindFits(str, pos);
    var raw := Find(str, CRLF, pos) + SizeAt(str, pos) + 4;
    if raw >= 0 {
      NextPosition(raw);
    } else {
      InRange(raw);
    }
  }

  // ---------------------------------------------------------------- the run of the loop

  /** The loop is still running after this many turns. */
  predicate Running(str: string, pos: int32, turns: nat)
    decreases turns
  {
    turns == 0 || (TurnAt(str, pos, FromStart).Go? && Running(str, TurnAt(str, pos, FromStart).next, turns - 1))
  }

  /** Where the cursor is then. */
  function Cursor(str: string, pos: int32, turns: nat): int32
    requires Running(str, pos, turns)
    decreases turns
  {
    if turns == 0 then pos else Cursor(str, TurnAt(str, pos, FromStart).next, turns - 1)
  }

  // ---------------------------------------------------------------- forward only

  /** Every size that the loop reads takes the cursor forward. */
  ghost predicate ReadsForward(str: string, pos: int32) {
    forall k: nat :: Running(str, pos, k) && 0 <= Cursor(str, pos, k) <= |str| ==> TakesForward(str, Cursor(str, pos, k))
  }

  lemma ForwardHere(str: string, pos: int32)
    requires ReadsForward(str, pos)
    ensures 0 <= pos <= |str| ==> TakesForward(str, pos)
  {
    hide TurnAt, TakesForward;
    assert Running(str, pos, 0) && Cursor(str, pos, 0) == pos;
  }

  lemma ForwardNext(str: string, pos: int32)
    requires ReadsForward(str, pos) && TurnAt(str, pos, FromStart).Go?
    ensures ReadsForward(str, TurnAt(str, pos, FromStart).next)
  {
    hide TurnAt, TakesForward;
    var next := TurnAt(str, pos, FromStart).next;
    forall k: nat | Running(str, next, k) && 0 <= Cursor(str, next, k) <= |str|
      ensures TakesForward(str, Cursor(str, next, k))
    {
      assert Running(str, pos, k + 1) && Cursor(str, pos, k + 1) == Cursor(str, next, k);
    }
  }

  /** The loop ends when no size that it reads holds the cursor or takes it back. */
  lemma {:induction false} EndsOnSizes(str: string, pos: int32, body: string, turns: nat)
    requires |str| <= INT_MAX - 4 && ReadsForward(str, pos)
    requires turns >= if 0 <= pos <= |str| then |str| - pos + 2 else 1
    ensures Decode(str, pos, body, turns, FromStart).outcome != Unfinished
    decreases turns
  {
    hide TurnAt, TakesForward, ReadsForward;
    var turn := TurnAt(str, pos, FromStart);
    if turn.Go? {
      GoesOn(str, pos);
      ForwardHere(str, pos);
      MovesForward(str, pos);
      ForwardNext(str, pos);
      EndsOnSizes(str, turn.next, body + turn.slice, turns - 1);
    } else {
    }
  }

  lemma ForwardFrom(str: string, pos: int32)
    requires 0 <= pos <= |str| ==> TakesForward(str, pos)
    requires TurnAt(str, pos, FromStart).Go? ==> ReadsForward(str, TurnAt(str, pos, FromStart).next)
    ensures ReadsForward(str, pos)
  {
    hide TurnAt, TakesForward;
    forall k: nat | Running(str, pos, k) && 0 <= Cursor(str, pos, k) <= |str|
      ensures TakesForward(str, Cursor(str, pos, k))
    {
      if k > 0 {
        var next := TurnAt(str, pos, FromStart).next;
        assert Running(str, next, k - 1) && Cursor(str, next, k - 1) == Cursor(str, pos, k);
      }
    }
  }

  /** Every well-formed body is read forward. */
  lemma {:induction false} WellFormedReadsForward(str: string, front: string, chunks: seq<Chunk>, zero: string, trailer: string)
    requires str == front + (Encode(chunks) + LastChunk(zero, trailer)) && |str| <= INT_MAX
    requires AllWellFormed(chunks) && IsZero(zero)
    ensures ReadsForward(str, |front|)
    decreases |chunks|
  {
    hide TurnAt, WellFormed, LastChunk, IsZero, Window, ReadsForward, TakesForward;
    if chunks == [] {
      assert Encode(chunks) + LastChunk(zero, trailer) == LastChunk(zero, trailer);
      TurnAtZero(str, front, zero, trailer, FromStart);
      StopTakesForward(str, |front|);
    } else {
      var c, rest := chunks[0], Encode(chunks[1..]) + LastChunk(zero, trailer);
      assert Encode(chunks) + LastChunk(zero, trailer) == EncodeChunk(c) + rest;
      ChunkSlices(str, front, c, rest);
      assert WellFormed(c);
      TurnAtChunk(str, |front|, c);
      ChunkTakesForward(str, |front|, c);
      assert str == front + EncodeChunk(c) + rest;
      WellFormedReadsForward(str, front + EncodeChunk(c), chunks[1..], zero, trailer);
    }
    ForwardFrom(str, |front|);
  }

  lemma StopTakesForward(str: string, pos: nat)
    requires pos <= |str| <= INT_MAX && TurnAt(str, pos, FromStart) == Stop
    ensures TakesForward(str, pos)
  {
    hide Find, HexToDec, Substr;
    FindFits(str, pos);
  }

  lemma ChunkTakesForward(str: string, pos: nat, c: Chunk)
    requires WellFormed(c) && pos + |EncodeChunk(c)| <= |str| <= INT_MAX
    requires str[pos..pos + |c.size|] == c.size && str[pos + |c.size|..pos + |c.size| + 2] == CRLF
    ensures TakesForward(str, pos)
  {
    hide Find, HexToDec, HexValue, Substr;
    SizeLineAt(str, pos, c.size);
    HexToDecExact(c.size);
  }

  // ---------------------------------------------------------------- soon or never

  lemma {:induction false} UnfinishedIsRunning(str: string, pos: int32, body: string, turns: nat)
    ensures Decode(str, pos, body, turns, FromStart).outcome == Unfinished <==> Running(str, pos, turns)
    decreases turns
  {
    hide TurnAt;
    if turns == 0 {
    } else {
      var turn := TurnAt(str, pos, FromStart);
      if turn.Go? {
        UnfinishedIsRunning(str, turn.next, body + turn.slice, turns - 1);
      }
    }
  }

  lemma {:induction false} RunningOn(str: string, pos: int32, j: nat, more: nat)
    requires Running(str, pos, j)
    ensures Running(str, pos, j + more) <==> Running(str, Cursor(str, pos, j), more)
    decreases j
  {
    hide TurnAt;
    if j == 0 {
    } else {
      RunningOn(str, TurnAt(str, pos, FromStart).next, j - 1, more);
    }
  }

  lemma {:induction false} RunningLess(str: string, pos: int32, j: nat, turns: nat)
    requires j <= turns && Running(str, pos, turns)
    ensures Running(str, pos, j)
    decreases j
  {
    hide TurnAt;
    if j == 0 {
    } else {
      RunningLess(str, TurnAt(str, pos, FromStart).next, j - 1, turns - 1);
    }
  }

  /** The cursor is at the same position after i turns and after j turns. */
  predicate Repeats(str: string, pos: int32, i: nat, j: nat) {
    i < j && Running(str, pos, i) && Running(str, pos, j) && Cursor(str, pos, i) == Cursor(str, pos, j)
  }

  /** A cursor that comes back to where it has been never gets away. */
  lemma {:induction false} RepeatsForever(str: string, pos: int32, i: nat, j: nat, turns: nat)
    requires Repeats(str, pos, i, j)
    ensures Running(str, pos, turns)
    decreases turns
  {
    hide TurnAt, Running;
    if turns <= j {
      RunningLess(str, pos, turns, j);
    } else {
      RepeatsForever(str, pos, i, j, i + (turns - j));
      RunningOn(str, pos, i, turns - j);
      RunningOn(str, pos, j, turns - j);
    }
  }

  /** More numbers than there is room for include two that are equal. */
  lemma {:induction false} Pigeonhole(s: seq<int>, bound: nat) returns (i: nat, j: nat)
    requires |s| > bound && forall k :: 0 <= k < |s| ==> 0 <= s[k] < bound
    ensures i < j < |s| && s[i] == s[j]
    decreases bound
  {
    var last := |s| - 1;
    assert s[last] < bound;
    if k :| 0 <= k < last && s[k] == s[last] {
      i, j := k, last;
    } else {
      var t := seq(last, k requires 0 <= k < last => if s[k] == bound - 1 then s[last] else s[k]);
      i, j := Pigeonhole(t, bound - 1);
    }
  }

  /** The positions of the cursor at the start of each turn of a running loop; they lie in the string. */
  function Cursors(str: string, pos: int32, n: nat): (cursors: seq<int>)
    requires Running(str, pos, n)
    ensures |cursors| == n
    decreases n
  {
    if n == 0 then [] else [pos as int] + Cursors(str, TurnAt(str, pos, FromStart).next, n - 1)
  }

  lemma {:induction false} CursorsAre(str: string, pos: int32, n: nat, k: nat)
    requires Running(str, pos, n) && k < n
    ensures Running(str, pos, k) && Cursors(str, pos, n)[k] == Cursor(str, pos, k)
    ensures 0 <= Cursors(str, pos, n)[k] <= |str|
    decreases k
  {
    hide TurnAt;
    if k == 0 {
      GoesOn(str, pos);
    } else {
      CursorsAre(str, TurnAt(str, pos, FromStart).next, n - 1, k - 1);
    }
  }

  /** A loop that runs for more turns than the string has positions comes back to one of them. */
  lemma ComesBack(str: string, pos: int32) returns (i: nat, j: nat)
    requires Running(str, pos, |str| + 2)
    ensures Repeats(str, pos, i, j)
  {
    hide TurnAt, Running, Cursor, Cursors;
    var cursors := Cursors(str, pos, |str| + 2);
    forall k | 0 <= k < |cursors|
      ensures 0 <= cursors[k] < |str| + 1
    {
      CursorsAre(str, pos, |str| + 2, k);
    }
    i, j := Pigeonhole(cursors, |str| + 1);
    CursorsAre(str, pos, |str| + 2, i);
    CursorsAre(str, pos, |str| + 2, j);
  }

  /** The loop ends if and only if it ends within two turns more than the string is long: a bound of that size
      on its turns loses nothing. */
  lemma EndsSoonOrNever(str: string, pos: int32, body: string, turns: nat)
    requires turns >= |str| + 2
    ensures Decode(str, pos, body, turns, FromStart).outcome == Unfinished <==>
      forall more: nat :: Decode(str, pos, body, more, FromStart).outcome == Unfinished
  {
    hide Decode, Running, Cursor, TurnAt;
    UnfinishedIsRunning(str, pos, body, turns);
    if Running(str, pos, turns) {
      RunningLess(str, pos, |str| + 2, turns);
      var i, j := ComesBack(str, pos);
      forall more: nat
        ensures Decode(str, pos, body, more, FromStart).outcome == Unfinished
      {
        RepeatsForever(str, pos, i, j, more);
        UnfinishedIsRunning(str, pos, body, more);
      }
    }
  }

  /** The loop never ends if and only if its cursor comes back to a position. */
  lemma NeverEndsExactlyOnRepeat(str: string, pos: int32, body: string)
    ensures (forall turns: nat :: Decode(str, pos, body, turns, FromStart).outcome == Unfinished) <==>
      exists i: nat, j: nat :: Repeats(str, pos, i, j)
  {
    hide Decode, Running, Cursor;
    UnfinishedIsRunning(str, pos, body, |str| + 2);
    if Running(str, pos, |str| + 2) {
      var i, j := ComesBack(str, pos);
      assert Repeats(str, pos, i, j);
      forall turns: nat
        ensures Decode(str, pos, body, turns, FromStart).outcome == Unfinished
      {
        RepeatsForever(str, pos, i, j, turns);
        UnfinishedIsRunning(str, pos, body, turns);
      }
    } else {
      forall i: nat, j: nat
        ensures !Repeats(str, pos, i, j)
      {
        if Repeats(str, pos, i, j) {
          RepeatsForever(str, pos, i, j, |str| + 2);
        }
      }
    }
  }

  // ---------------------------------------------------------------- size lines that hold the cursor

  lemma {:induction false} StaysForGood(str: string, pos: int32, body: string, turns: nat)
    requires TurnAt(str, pos, FromStart) == Go("", pos)
    ensures Decode(str, pos, body, turns, FromStart) == Result(Unfinished, body, pos)
    decreases turns
  {
    hide TurnAt;
    if turns == 0 {
    } else {
      assert body + "" == body;
      StaysForGood(str, pos, body, turns - 1);
    }
  }

  /** A body of one size line that is read as minus its length and four is never done with. */
  lemma SizeLineStalls(line: string, body: string, turns: nat)
    requires '\r' !in line && HexToDec(line, 16) == -(|line| + 4) && |line| <= INT_MAX - 6
    ensures Decode(line + CRLF, 0, body, turns, FromStart) == Result(Unfinished, body, 0)
  {
    hide HexToDec, ToInt32;
    var str := line + CRLF;
    LineEndAt(line);
    assert Substr(str, 0, |line|) == line;
    assert SizeAt(str, 0) == -(|line| + 4);
    StaysExactly(str, 0);
    StaysForGood(str, 0, body, turns);
  }

  lemma LineEndAt(line: string)
    requires '\r' !in line
    ensures Find(line + CRLF, CRLF, 0) == |line|
  {
    var str := line + CRLF;
    assert str[|line|..|line| + 2] == CRLF;
    forall k | 0 <= k < |line|
      ensures !OccursAt(str, CRLF, k)
    {
      assert str[k..k + 2][0] == line[k];
    }
    FindIs(str, CRLF, 0, |line|);
  }

  /** Such lines are "R", which is no number, and "fffffff4", which is one and wraps around to -12. */
  lemma StallingSizes(body: string, turns: nat)
    ensures Decode("R" + CRLF, 0, body, turns, FromStart) == Result(Unfinished, body, 0)
    ensures AllHexDigits("fffffff4") && NoUpperCase("fffffff4")
    ensures Decode("fffffff4" + CRLF, 0, body, turns, FromStart) == Result(Unfinished, body, 0)
  {
    hide Decode;
    SizeOfR();
    SizeLineStalls("R", body, turns);
    SizeOfF4();
    SizeLineStalls("fffffff4", body, turns);
  }

  lemma SizeOfR()
    ensures HexToDec("R", 16) == -5
  {
    assert Val('R') == -5 && Positional("R", 16) == Positional("", 16) * 16 + Val('R');
    InRange(-5);
  }

  lemma PositionalSnoc(s: string, c: char, longer: string)
    requires longer == s + [c]
    ensures Positional(longer, 16) == Positional(s, 16) * 16 + Val(c)
  {
    assert longer[..|s|] == s;
  }

  lemma SizeOfF4()
    ensures HexToDec("fffffff4", 16) == -12
  {
    hide Positional;
    PositionalNone();
    PositionalSnoc("", 'f', "f");
    PositionalSnoc("f", 'f', "ff");
    PositionalSnoc("ff", 'f', "fff");
    PositionalSnoc("fff", 'f', "ffff");
    PositionalSnoc("ffff", 'f', "fffff");
    PositionalSnoc("fffff", 'f', "ffffff");
    PositionalSnoc("ffffff", 'f', "fffffff");
    PositionalSnoc("fffffff", '4', "fffffff4");
    assert Positional("fffffff4", 16) == 4294967284;
    ToInt32Congruent(4294967284, -12, 1);
    InRange(-12);
  }

  lemma PositionalNone()
    ensures Positional("", 16) == 0
  {
  }
}

/** The chunked-body decoder (section 4.1 of RFC 7230): header_handler::parse_body. */
module ChunkedBody {
  import opened Strings
  import opened Numbers

  // ---------------------------------------------------------------- one turn of the cursor loop

  datatype Outcome = Finished | OutOfRange | Unfinished

  /** Where a chunk's data is taken from: the code slices from the start of the string,
      the intention is to slice from the cursor. */
  datatype Slicing = FromStart | FromCursor

  /** substr(pos, count): a negative position or one past the end throws, a negative count means "to the end". */
  function Substr(s: string, pos: int, count: int): string
    requires 0 <= pos <= |s|
  {
    if count < 0 || pos + count > |s| then s[pos..] else s[pos..pos + count]
  }

  datatype Turn = Stop | Throw | Go(slice: string, next: int32)

  /** A negative cursor is taken for a huge position, where substr throws. */
  function TurnAt(str: string, pos: int32, slicing: Slicing): Turn {
    if pos < 0 || pos > |str| then Throw
    else
      var lineEnd := Find(str, CRLF, pos);
      var lenHexNb := lineEnd - pos;
      var chunkSize := HexToDec(Substr(str, pos, lenHexNb), 16);
      var from := (if slicing == FromCursor then pos else 0) + lenHexNb + 2;
      if chunkSize == 0 then Stop
      else if from < 0 || from > |str| then Throw
      else Go(Substr(str, from, chunkSize), ToInt32(lineEnd + chunkSize + 4))
  }

  datatype Result = Result(outcome: Outcome, body: string, pos: int32)

  /** The loop, for at most the given number of turns. */
  function Decode(str: string, pos: int32, body: string, turns: nat, slicing: Slicing): Result
    decreases turns
  {
    if turns == 0 then Result(Unfinished, body, pos)
    else
      match TurnAt(str, pos, slicing)
      case Stop => Result(Finished, body, pos)
      case Throw => Result(OutOfRange, body, pos)
      case Go(slice, next) => Decode(str, next, body + slice, turns - 1, slicing)
  }

  // ---------------------------------------------------------------- the method

  method AppendAll(start: string, fragments: seq<string>) returns (all: string)
    ensures all == start + Flatten(fragments)
  {
    all := start;
    var it := 0;
    while it < |fragments|
      invariant 0 <= it <= |fragments|
      invariant all == start + Flatten(fragments[..it])
    {
      assert fragments[..it + 1][..it] == fragments[..it];
      all := all + fragments[it];
      it := it + 1;
    }
    assert fragments[..it] == fragments;
  }

  /** The loop's body, up to the two assignments it ends with. */
  method TakeTurn(str: string, pos: int32) returns (turn: Turn)
    ensures turn == TurnAt(str, pos, FromStart)
  {
    hide HexToDec, Find, ToInt32, Substr;
    if pos < 0 || pos > |str| {
      return Throw;
    }
    var lineEnd := Find(str, CRLF, pos);
    var lenHexNb := lineEnd - pos;
    var hexNb := Substr(str, pos, lenHexNb);
    var chunkSize := HexToDecimal(hexNb, 16);
    if chunkSize == 0 {
      return Stop;
    }
    if lenHexNb + 2 < 0 || lenHexNb + 2 > |str| {
      return Throw;
    }
    return Go(Substr(str, lenHexNb + 2, chunkSize), ToInt32(lineEnd + chunkSize + 4));
  }

  class HeaderHandler {
    var body: string
    var contentLength: int32

    constructor ()
      ensures body == "" && contentLength == 0
    {
      body, contentLength := "", 0;
    }

    /** The loop need not end when a size is read as negative, hence the bound on its turns. */
    method ParseBody(fragments: seq<string>, maxTurns: nat) returns (outcome: Outcome, cursor: int32)
      modifies this`body
      ensures contentLength != 0 ==> outcome == Finished && body == old(body) + Flatten(fragments)
      ensures contentLength == 0 ==>
        Result(outcome, body, cursor) == Decode(Flatten(fragments), 0, old(body), maxTurns, FromStart)
    {
      hide TurnAt, Flatten;
      cursor := 0;
      if contentLength != 0 {
        body := AppendAll(body, fragments);
        return Finished, cursor;
      }
      var str := AppendAll("", fragments);
      assert str == Flatten(fragments);
      var turns := maxTurns;
      while turns > 0
        invariant 0 <= turns
        invariant Decode(str, 0, old(body), maxTurns, FromStart) == Decode(str, cursor, body, turns, FromStart)
      {
        turns := turns - 1;
        var turn := TakeTurn(str, cursor);
        match turn
        case Stop => return Finished, cursor;
        case Throw => return OutOfRange, cursor;
        case Go(slice, next) =>
          body := body + slice;
          cursor := next;
      }
      return Unfinished, cursor;
    }
  }

  // ---------------------------------------------------------------- well-formed bodies

  /** A chunk with the size line it is sent under. */
  datatype Chunk = Chunk(size: string, data: string)

  /** A lower-case hexadecimal size, which may have leading zeros, and no empty data chunk; the data may be
      any bytes. */
  predicate WellFormed(c: Chunk) {
    AllHexDigits(c.size) && NoUpperCase(c.size) && HexValue(c.size) == |c.data| && c.data != ""
  }

  predicate AllWellFormed(chunks: seq<Chunk>) {
    forall k :: 0 <= k < |chunks| ==> WellFormed(chunks[k])
  }

  function EncodeChunk(c: Chunk): string {
    c.size + CRLF + c.data + CRLF
  }

  function Encode(chunks: seq<Chunk>): string {
    if chunks == [] then "" else EncodeChunk(chunks[0]) + Encode(chunks[1..])
  }

  /** The data of the chunks, which is what the decoder is for. */
  function Data(chunks: seq<Chunk>): string {
    if chunks == [] then "" else chunks[0].data + Data(chunks[1..])
  }

  /** What the code takes for a chunk's data: bytes at a distance from the start of the whole string. */
  function Window(str: string, c: Chunk): string {
    if |c.size| + 2 <= |str| then Substr(str, |c.size| + 2, |c.data|) else ""
  }

  function Windows(str: string, chunks: seq<Chunk>): string {
    if chunks == [] then "" else Window(str, chunks[0]) + Windows(str, chunks[1..])
  }

  function Slices(str: string, chunks: seq<Chunk>, slicing: Slicing): string {
    if slicing == FromCursor then Data(chunks) else Windows(str, chunks)
  }

  /** Data chunks, a zero chunk, and any trailer. */
  predicate IsBody(str: string, chunks: seq<Chunk>, zero: string, trailer: string) {
    str == Encode(chunks) + LastChunk(zero, trailer) && AllWellFormed(chunks) && IsZero(zero) && |str| <= INT_MAX
  }

  predicate IsZero(zero: string) {
    AllHexDigits(zero) && NoUpperCase(zero) && HexValue(zero) == 0
  }

  function LastChunk(zero: string, trailer: string): string {
    zero + CRLF + trailer
  }

  lemma SizeLineAt(str: string, pos: nat, size: string)
    requires pos + |size| + 2 <= |str| && str[pos..pos + |size|] == size && AllHexDigits(size)
    requires str[pos + |size|..pos + |size| + 2] == CRLF
    ensures Find(str, CRLF, pos) == pos + |size| && Substr(str, pos, |size|) == size
  {
    hide Find;
    var at := pos + |size|;
    forall k | pos <= k < at
      ensures !OccursAt(str, CRLF, k)
    {
      assert str[k] == size[k - pos];
      assert str[k..k + 2][0] == str[k];
    }
    FindIs(str, CRLF, pos, at);
  }

  lemma ChunkSlices(str: string, front: string, c: Chunk, rest: string)
    requires str == front + (EncodeChunk(c) + rest)
    ensures var at := |front| + |c.size|;
      && at + 2 + |c.data| <= |str|
      && str[|front|..at] == c.size && str[at..at + 2] == CRLF && str[at + 2..at + 2 + |c.data|] == c.data
  {
    assert str == front + c.size + CRLF + c.data + (CRLF + rest);
  }

  /** With the cursor on a chunk's size line, one turn moves it to the next size line exactly. */
  lemma TurnAtChunk(str: string, pos: nat, c: Chunk)
    requires WellFormed(c) && pos + |EncodeChunk(c)| <= |str| <= INT_MAX
    requires var at := pos + |c.size|;
      str[pos..at] == c.size && str[at..at + 2] == CRLF && str[at + 2..at + 2 + |c.data|] == c.data
    ensures TurnAt(str, pos, FromStart) == Go(Window(str, c), pos + |EncodeChunk(c)|)
    ensures TurnAt(str, pos, FromCursor) == Go(c.data, pos + |EncodeChunk(c)|)
  {
    hide Find, HexToDec, HexValue, ToInt32;
    SizeLineAt(str, pos, c.size);
    HexToDecExact(c.size);
    InRange(pos + |EncodeChunk(c)|);
  }

  lemma TurnAtZero(str: string, front: string, zero: string, trailer: string, slicing: Slicing)
    requires IsZero(zero) && str == front + LastChunk(zero, trailer) && |str| <= INT_MAX
    ensures TurnAt(str, |front|, slicing) == Stop
  {
    hide Find, HexToDec, HexValue, ToInt32;
    var at := |front| + |zero|;
    assert str[|front|..at] == zero && str[at..at + 2] == CRLF;
    SizeLineAt(str, |front|, zero);
    HexToDecExact(zero);
  }

  /** The loop goes through data chunks one by one, whatever follows them. */
  lemma {:induction false} DecodeThrough(str: string, front: string, chunks: seq<Chunk>, rest: string,
                                         body: string, turns: nat, slicing: Slicing)
    requires str == front + (Encode(chunks) + rest) && |str| <= INT_MAX
    requires AllWellFormed(chunks) && turns >= |chunks|
    ensures Decode(str, |front|, body, turns, slicing)
         == Decode(str, |front| + |Encode(chunks)|, body + Slices(str, chunks, slicing), turns - |chunks|, slicing)
    decreases |chunks|
  {
    hide TurnAt, WellFormed, Window;
    if chunks == [] {
      assert body + Slices(str, chunks, slicing) == body;
    } else {
      var c, more := chunks[0], Encode(chunks[1..]) + rest;
      assert Encode(chunks) + rest == EncodeChunk(c) + more;
      ChunkSlices(str, front, c, more);
      assert WellFormed(c);
      TurnAtChunk(str, |front|, c);
      var next, slice := front + EncodeChunk(c), if slicing == FromCursor then c.data else Window(str, c);
      assert str == next + more;
      DecodeThrough(str, next, chunks[1..], rest, body + slice, turns - 1, slicing);
      assert body + slice + Slices(str, chunks[1..], slicing) == body + Slices(str, chunks, slicing);
    }
  }

  lemma DecodeFrom(str: string, front: string, chunks: seq<Chunk>, zero: string, trailer: string,
                   body: string, turns: nat, slicing: Slicing)
    requires str == front + (Encode(chunks) + LastChunk(zero, trailer)) && |str| <= INT_MAX
    requires AllWellFormed(chunks) && IsZero(zero) && turns > |chunks|
    ensures Decode(str, |front|, body, turns, slicing)
         == Result(Finished, body + Slices(str, chunks, slicing), |front| + |Encode(chunks)|)
  {
    hide TurnAt, WellFormed, LastChunk, IsZero, Window, Encode, Slices;
    DecodeThrough(str, front, chunks, LastChunk(zero, trailer), body, turns, slicing);
    assert str == (front + Encode(chunks)) + LastChunk(zero, trailer);
    TurnAtZero(str, front + Encode(chunks), zero, trailer, slicing);
  }

  /** On every well-formed body the loop ends at the zero chunk with the cursor on it. Sliced at the
      cursor, as intended, the result is the chunks' data; the code's result is made of windows near the start. */
  lemma DecodesWellFormed(str: string, chunks: seq<Chunk>, zero: string, trailer: string, body: string, turns: nat)
    requires IsBody(str, chunks, zero, trailer) && turns > |chunks|
    ensures Decode(str, 0, body, turns, FromCursor) == Result(Finished, body + Data(chunks), |Encode(chunks)|)
    ensures Decode(str, 0, body, turns, FromStart) == Result(Finished, body + Windows(str, chunks), |Encode(chunks)|)
    ensures |Windows(str, chunks)| == |Data(chunks)|
  {
    hide Decode, Encode, Data, Windows, LastChunk;
    assert "" + (Encode(chunks) + LastChunk(zero, trailer)) == str;
    DecodeFrom(str, "", chunks, zero, trailer, body, turns, FromCursor);
    DecodeFrom(str, "", chunks, zero, trailer, body, turns, FromStart);
    WindowsFit(str, "", chunks, LastChunk(zero, trailer));
  }

  lemma {:induction false} WindowsFit(str: string, front: string, chunks: seq<Chunk>, rest: string)
    requires str == front + (Encode(chunks) + rest)
    ensures |Windows(str, chunks)| == |Data(chunks)|
    ensures forall k :: 0 <= k < |chunks| ==> |Window(str, chunks[k])| == |chunks[k].data|
    decreases |chunks|
  {
    if chunks == [] {
    } else {
      var c := chunks[0];
      assert str == front + EncodeChunk(c) + (Encode(chunks[1..]) + rest);
      WindowsFit(str, front + EncodeChunk(c), chunks[1..], rest);
      assert |Window(str, c)| == |c.data|;
      assert forall k :: 0 < k < |chunks| ==> chunks[k] == chunks[1..][k - 1];
    }
  }

  // ---------------------------------------------------------------- when the code's slicing is right

  /** The body has the chunk's data at the chunk's own data offset, counted from the start of the body. */
  predicate RepeatsOpening(str: string, c: Chunk) {
    |c.size| + 2 <= |str| && c.data <= str[|c.size| + 2..]
  }

  lemma WindowRepeats(str: string, c: Chunk)
    requires |Window(str, c)| == |c.data| > 0
    ensures Window(str, c) == c.data <==> RepeatsOpening(str, c)
  {
    assert Window(str, c) == str[|c.size| + 2..][..|c.data|];
  }

  lemma {:induction false} WindowsAreData(str: string, chunks: seq<Chunk>)
    requires forall k :: 0 <= k < |chunks| ==> |Window(str, chunks[k])| == |chunks[k].data| > 0
    ensures Windows(str, chunks) == Data(chunks) <==> forall k :: 0 <= k < |chunks| ==> RepeatsOpening(str, chunks[k])
  {
    hide Window, RepeatsOpening;
    if chunks == [] {
    } else {
      var w, d := Window(str, chunks[0]), chunks[0].data;
      WindowRepeats(str, chunks[0]);
      WindowsAreData(str, chunks[1..]);
      assert forall k :: 0 < k < |chunks| ==> chunks[k] == chunks[1..][k - 1];
      assert forall k :: 0 <= k < |chunks[1..]| ==> chunks[1..][k] == chunks[k + 1];
      if Windows(str, chunks) == Data(chunks) {
        assert w == Windows(str, chunks)[..|w|] && d == Data(chunks)[..|d|];
        assert Windows(str, chunks[1..]) == Windows(str, chunks)[|w|..] && Data(chunks[1..]) == Data(chunks)[|d|..];
      }
    }
  }

  /** The code decodes a well-formed body exactly when every chunk repeats the opening. */
  lemma DecodedExactlyWhenRepeating(str: string, chunks: seq<Chunk>, zero: string, trailer: string, body: string, turns: nat)
    requires IsBody(str, chunks, zero, trailer) && turns > |chunks|
    ensures Decode(str, 0, body, turns, FromStart).body == body + Data(chunks)
       <==> forall k :: 0 <= k < |chunks| ==> RepeatsOpening(str, chunks[k])
  {
    hide Decode, Encode, Data, Windows, LastChunk, RepeatsOpening;
    DecodesWellFormed(str, chunks, zero, trailer, body, turns);
    assert str == "" + (Encode(chunks) + LastChunk(zero, trailer));
    WindowsFit(str, "", chunks, LastChunk(zero, trailer));
    assert forall k :: 0 <= k < |chunks| ==> |Window(str, chunks[k])| == |chunks[k].data| > 0;
    WindowsAreData(str, chunks);
    var w, d := Windows(str, chunks), Data(chunks);
    assert (body + w)[|body|..] == w && (body + d)[|body|..] == d;
  }

  /** In particular one data chunk, or copies of one chunk, decode correctly. */
  lemma CopiesDecode(str: string, chunks: seq<Chunk>, zero: string, trailer: string, body: string, turns: nat)
    requires IsBody(str, chunks, zero, trailer) && turns > |chunks|
    requires forall k :: 0 <= k < |chunks| ==> chunks[k] == chunks[0]
    ensures Decode(str, 0, body, turns, FromStart).body == body + Data(chunks)
  {
    hide Decode, Data, Windows, WellFormed;
    if chunks != [] {
      var c := chunks[0];
      assert str == c.size + CRLF + c.data + (CRLF + Encode(chunks[1..]) + LastChunk(zero, trailer));
      assert str[|c.size| + 2..|c.size| + 2 + |c.data|] == c.data;
    }
    DecodedExactlyWhenRepeating(str, chunks, zero, trailer, body, turns);
  }

  /** Two one-byte chunks "a" and "b" come out as "aa". */
  lemma SecondChunkMisread()
    ensures var str := "1\r\na\r\n1\r\nb\r\n0\r\n\r\n";
      && IsBody(str, [Chunk("1", "a"), Chunk("1", "b")], "0", CRLF)
      && Decode(str, 0, "", 3, FromStart).body == "aa"
  {
    var str, a, b := "1\r\na\r\n1\r\nb\r\n0\r\n\r\n", Chunk("1", "a"), Chunk("1", "b");
    assert [a, b][1..] == [b] && [b][1..] == [];
    assert HexValue("1") == HexValue("") * 16 + 1 && HexValue("0") == HexValue("") * 16 + 0;
    assert Encode([b]) == EncodeChunk(b) + Encode([]);
    assert Encode([a, b]) == EncodeChunk(a) + Encode([b]);
    assert Window(str, a) == "a" && Window(str, b) == "a";
    assert Windows(str, [a, b]) == "a" + (Windows(str, [b]));
    DecodesWellFormed(str, [a, b], "0", CRLF, "", 3);
  }

  // ---------------------------------------------------------------- bodies that are cut short

  /** With the size line but not all of the data and its line end, the next turn is past the end and throws. */
  lemma CutShortThrows(str: string, chunks: seq<Chunk>, c: Chunk, part: string, body: string, turns: nat)
    requires AllWellFormed(chunks) && WellFormed(c) && |part| < |c.data| + 2
    requires str == Encode(chunks) + (c.size + CRLF + part) && |str| + |c.data| <= INT_MAX - 4
    requires turns >= |chunks| + 2
    ensures Decode(str, 0, body, turns, FromStart).outcome == OutOfRange
  {
    hide Encode, Slices, WellFormed, AllWellFormed, TurnAt;
    assert "" + (Encode(chunks) + (c.size + CRLF + part)) == str;
    DecodeThrough(str, "", chunks, c.size + CRLF + part, body, turns, FromStart);
    TurnAtCut(str, Encode(chunks), c, part);
    TurnPastEnd(str, TurnAt(str, |Encode(chunks)|, FromStart).next);
  }

  lemma TurnAtCut(str: string, front: string, c: Chunk, part: string)
    requires WellFormed(c) && str == front + (c.size + CRLF + part) && |str| + |c.data| <= INT_MAX - 4
    ensures var turn := TurnAt(str, |front|, FromStart); turn.Go? && turn.next == |front| + |c.size| + |c.data| + 4
  {
    hide Find, HexToDec, HexValue, ToInt32, Substr;
    var at := |front| + |c.size|;
    assert str[|front|..at] == c.size && str[at..at + 2] == CRLF;
    SizeLineAt(str, |front|, c.size);
    HexToDecExact(c.size);
    InRange(at + |c.data| + 4);
  }

  lemma TurnPastEnd(str: string, pos: int32)
    requires pos < 0 || pos > |str|
    ensures TurnAt(str, pos, FromStart) == Throw
  {
  }

  /** Without a last chunk the loop ends at the end of the string, as if there had been one. */
  lemma NoLastChunkFinishes(str: string, chunks: seq<Chunk>, body: string, turns: nat)
    requires AllWellFormed(chunks) && str == Encode(chunks) && |str| <= INT_MAX && turns > |chunks|
    ensures Decode(str, 0, body, turns, FromStart) == Result(Finished, body + Windows(str, chunks), |str|)
  {
    hide Encode, AllWellFormed, TurnAt, Windows;
    assert "" + (Encode(chunks) + "") == str;
    DecodeThrough(str, "", chunks, "", body, turns, FromStart);
    TurnAtEnd(str);
  }

  lemma TurnAtEnd(str: string)
    requires |str| <= INT_MAX
    ensures TurnAt(str, |str|, FromStart) == Stop
  {
    hide ToInt32;
    assert Find(str, CRLF, |str|) == -1;
    assert str[|str|..] == "";
    InRange(0);
  }
}

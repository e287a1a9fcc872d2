/** Basic authentication (section 2 of RFC 7617): validate_user_password in header_handler.cpp. */
module BasicAuth {
  import opened Strings
  import opened Base64

  const BASIC: bytes := [0x42, 0x61, 0x73, 0x69, 0x63]  // "Basic"
  const SPACE: bytes := [0x20]
  const COLON: bytes := [0x3a]

  /** OutOfRange is the exception that substr throws when nothing follows "Basic". */
  datatype Decision = Accepted | Rejected | OutOfRange

  /** c_str() read as a C string. */
  function CString(s: bytes): bytes {
    if s == [] || s[0] == 0 then [] else [s[0]] + CString(s[1..])
  }

  predicate HasColon(line: bytes) {
    Find(line, COLON, 0) != -1
  }

  /** A password-file line that names the user and whose encoded password decodes to the given one. */
  predicate Matches(line: bytes, user: bytes, password: bytes) {
    var div := Find(line, COLON, 0);
    div != -1 && line[..div] == user && Decode(line[div + 1..]) == password
  }

  /** The search stops at the first line without a colon. */
  predicate Listed(lines: seq<bytes>, user: bytes, password: bytes) {
    lines != [] && HasColon(lines[0]) && (Matches(lines[0], user, password) || Listed(lines[1..], user, password))
  }

  function Authorize(lines: seq<bytes>, authorization: bytes): Decision {
    var start := Find(authorization, BASIC, 0);
    if start == -1 then Rejected
    else if start + 6 > |authorization| then OutOfRange
    else
      var decoded := Decode(CString(authorization[start + 6..]));
      var division := Find(decoded, COLON, 0);
      if division != -1 && Listed(lines, decoded[..division], decoded[division + 1..]) then Accepted else Rejected
  }

  method ValidateUserPassword(correctPasswd: seq<bytes>, authorization: bytes) returns (r: Decision)
    ensures r == Authorize(correctPasswd, authorization)
  {
    hide Decode, Find;
    var start := Find(authorization, BASIC, 0);
    if start == -1 {
      return Rejected;
    }
    if start + 6 > |authorization| {
      return OutOfRange;
    }
    var decoded := Base64Decode(CString(authorization[start + 6..]));
    var division := Find(decoded, COLON, 0);
    if division == -1 {
      return Rejected;
    }
    var authUsername, authPassword := decoded[..division], decoded[division + 1..];
    var it := 0;
    assert correctPasswd[0..] == correctPasswd;
    while it < |correctPasswd|
      invariant 0 <= it <= |correctPasswd|
      invariant Listed(correctPasswd, authUsername, authPassword) == Listed(correctPasswd[it..], authUsername, authPassword)
    {
      assert correctPasswd[it..][1..] == correctPasswd[it + 1..];
      var div := Find(correctPasswd[it], COLON, 0);
      if div == -1 {
        return Rejected;
      }
      var username := correctPasswd[it][..div];
      var password := Base64Decode(correctPasswd[it][div + 1..]);
      if username == authUsername && password == authPassword {
        return Accepted;
      }
      it := it + 1;
    }
    return Rejected;
  }

  // ---------------------------------------------------------------- who is let in

  /** Some line lets the user in and every line before it is well formed. */
  ghost predicate Registered(lines: seq<bytes>, user: bytes, password: bytes) {
    exists k :: 0 <= k < |lines| && Matches(lines[k], user, password) && forall j :: 0 <= j < k ==> HasColon(lines[j])
  }

  lemma {:induction false} ListedIsRegistered(lines: seq<bytes>, user: bytes, password: bytes)
    ensures Listed(lines, user, password) <==> Registered(lines, user, password)
  {
    hide Find, Decode;
    if lines == [] {
    } else {
      ListedIsRegistered(lines[1..], user, password);
      if HasColon(lines[0]) && Registered(lines[1..], user, password) {
        var k :| 0 <= k < |lines[1..]| && Matches(lines[1..][k], user, password)
                 && forall j :: 0 <= j < k ==> HasColon(lines[1..][j]);
        assert Matches(lines[k + 1], user, password);
        forall j | 0 <= j < k + 1
          ensures HasColon(lines[j])
        {
          assert j > 0 ==> lines[j] == lines[1..][j - 1];
        }
      }
      if Registered(lines, user, password) && !Matches(lines[0], user, password) {
        var k :| 0 <= k < |lines| && Matches(lines[k], user, password) && forall j :: 0 <= j < k ==> HasColon(lines[j]);
        assert Matches(lines[1..][k - 1], user, password);
        forall j | 0 <= j < k - 1
          ensures HasColon(lines[1..][j])
        {
          assert lines[1..][j] == lines[j + 1];
        }
      }
    }
  }

  /** Decoding stops at a NUL by itself. */
  lemma {:induction false} ReadableCString(s: bytes)
    ensures Readable(CString(s)) == Readable(s)
  {
    if s == [] || s[0] == 0 {
    } else {
      ReadableCString(s[1..]);
      assert CString(s)[1..] == CString(s[1..]);
    }
  }

  lemma FirstColon(user: bytes, password: bytes)
    requires COLON[0] !in user
    ensures Find(user + COLON + password, COLON, 0) == |user|
  {
    var s := user + COLON + password;
    assert s[|user|..|user| + 1] == COLON;
    forall k | 0 <= k < |user|
      ensures !OccursAt(s, COLON, k)
    {
      assert s[k..k + 1] == [user[k]];
    }
    FindIs(s, COLON, 0, |user|);
  }

  /** The header that a client sends for these credentials (section 2 of RFC 7617). */
  function BasicHeader(user: bytes, password: bytes): bytes {
    Bytes("Basic ") + Standard(user + Bytes(":") + password)
  }

  lemma FixedBytes()
    ensures Bytes("Basic ") == BASIC + SPACE && Bytes(":") == COLON && Bytes("Basic") == BASIC
  {
    assert ByteOf('B') == 0x42 && ByteOf('a') == 0x61 && ByteOf('s') == 0x73 && ByteOf('i') == 0x69;
    assert ByteOf('c') == 0x63 && ByteOf(' ') == 0x20 && ByteOf(':') == 0x3a;
  }

  /** A line of the password file: the user, a colon, and an encoding of the password. */
  predicate LineFor(line: bytes, user: bytes, password: bytes, code: bytes) {
    line == user + Bytes(":") + code && Decode(code) == password
  }

  /** Some line is the user's with this password, and every line before it holds a colon. */
  ghost predicate OnFile(lines: seq<bytes>, user: bytes, password: bytes) {
    exists k: nat, code :: k < |lines| && LineFor(lines[k], user, password, code)
      && forall j :: 0 <= j < k ==> ByteOf(':') in lines[j]
  }

  lemma HasColonMeans(line: bytes)
    ensures HasColon(line) <==> COLON[0] in line
  {
    if COLON[0] in line {
      var k :| 0 <= k < |line| && line[k] == COLON[0];
      assert line[k..k + 1] == COLON && OccursAt(line, COLON, k);
    } else {
      forall k
        ensures !OccursAt(line, COLON, k)
      {
        if 0 <= k < |line| {
          assert line[k..k + 1] == [line[k]];
        }
      }
    }
  }

  lemma MatchesMeans(line: bytes, user: bytes, password: bytes)
    requires COLON[0] !in user
    ensures Matches(line, user, password) <==> exists code :: LineFor(line, user, password, code)
  {
    hide Decode, Find, Bytes;
    FixedBytes();
    var div := Find(line, COLON, 0);
    if Matches(line, user, password) {
      var code := line[div + 1..];
      assert line[div..div + 1] == COLON && line == line[..div] + line[div..div + 1] + code;
      assert LineFor(line, user, password, code);
    }
    if exists code :: LineFor(line, user, password, code) {
      var code :| LineFor(line, user, password, code);
      FirstColon(user, code);
      assert line[..|user|] == user && line[|user| + 1..] == code;
    }
  }

  lemma RegisteredMeans(lines: seq<bytes>, user: bytes, password: bytes)
    requires COLON[0] !in user
    ensures Registered(lines, user, password) <==> OnFile(lines, user, password)
  {
    hide Matches, HasColon, LineFor, Bytes, ByteOf;
    FixedBytes();
    assert Bytes(":")[0] == ByteOf(':');
    forall j | 0 <= j < |lines|
      ensures Matches(lines[j], user, password) <==> exists code :: LineFor(lines[j], user, password, code)
      ensures HasColon(lines[j]) <==> ByteOf(':') in lines[j]
    {
      MatchesMeans(lines[j], user, password);
      HasColonMeans(lines[j]);
    }
  }

  /** A client's header is accepted exactly when the password file has its credentials on a line and a colon on
      every line before it. */
  lemma AcceptedExactlyWhenRegistered(lines: seq<bytes>, user: bytes, password: bytes)
    requires ByteOf(':') !in user
    ensures Authorize(lines, BasicHeader(user, password)) == Accepted <==> OnFile(lines, user, password)
    ensures Authorize(lines, BasicHeader(user, password)) != OutOfRange
  {
    hide Encode, Standard, Find, Readable, DecodeLetters, Listed, Registered, OnFile, Bytes;
    FixedBytes();
    assert Bytes(":")[0] == ByteOf(':');
    var plain := user + COLON + password;
    var header := BASIC + SPACE + Standard(plain);
    assert header[0..5] == BASIC && header[6..] == Standard(plain);
    FindIs(header, BASIC, 0, 0);
    ReadableCString(Standard(plain));
    DecodeStandard(plain);
    FirstColon(user, password);
    assert plain[..|user|] == user && plain[|user| + 1..] == password;
    ListedIsRegistered(lines, user, password);
    RegisteredMeans(lines, user, password);
  }

  /** Nothing is let in without the word "Basic", and the header that ends with it throws. */
  lemma WithoutCredentials(lines: seq<bytes>, front: bytes, authorization: bytes)
    ensures (forall k :: !OccursAt(authorization, Bytes("Basic"), k)) ==> Authorize(lines, authorization) == Rejected
    ensures Find(front + Bytes("Basic"), Bytes("Basic"), 0) == |front| ==>
      Authorize(lines, front + Bytes("Basic")) == OutOfRange
  {
    hide Bytes, Find, Decode;
    FixedBytes();
  }
}

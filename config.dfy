/**
  Config.ts: the connection settings, the authentication frame the client
  sends first, and the reading of the server's reply to it.
*/
module ClientConfig {
  import opened Wire

  /** The settings a client connection is made with; fields are set once, by the constructor. */
  datatype Config = Config(username: string, password: string, host: string, port: int)
  {
    function GetUsername(): string { username }
    function GetPassword(): string { password }
    function GetHost(): string { host }
    function GetPort(): int { port }
  }

  const DEFAULT_HOST: string := "localhost"
  const DEFAULT_PORT: int := 2003

  /** new Config(username, password, host?, port?) */
  function NewConfig(username: string, password: string, host: string := DEFAULT_HOST, port: int := DEFAULT_PORT): (c: Config)
    ensures c.GetUsername() == username && c.GetPassword() == password
    ensures c.GetHost() == host && c.GetPort() == port
  {
    Config(username, password, host, port)
  }

  /** Without a host and a port the configuration points at localhost:2003. */
  lemma NewConfigDefaults(username: string, password: string)
    ensures NewConfig(username, password).GetHost() == "localhost"
    ensures NewConfig(username, password).GetPort() == 2003
  {
  }

  /** 'H' and five zero bytes open every handshake frame. */
  const HANDSHAKE_PREAMBLE: string := ['H', 0 as char, 0 as char, 0 as char, 0 as char, 0 as char]

  /** getClientHandshake: the preamble, the two lengths as decimal lines, then username and password. */
  function ClientHandshake(c: Config): (r: string)
    ensures |r| == 6 + |DecimalText(|c.username|)| + |DecimalText(|c.password|)| + 2 + |c.username| + |c.password|
    ensures r[..6] == HANDSHAKE_PREAMBLE
  {
    HANDSHAKE_PREAMBLE + DecimalText(|c.GetUsername()|) + "\n" + DecimalText(|c.GetPassword()|) + "\n"
      + c.GetUsername() + c.GetPassword()
  }

  /**
    How the receiving side reads a handshake frame: the preamble, two decimal
    lengths each ended by a newline, then exactly that many characters of
    username and of password.
  */
  function ParseHandshake(f: string): Option<(string, string)>
  {
    if |f| < 6 || f[..6] != HANDSHAKE_PREAMBLE then None
    else match ReadLengthLine(f[6..])
      case None => None
      case Some((ulen, rest)) =>
        match ReadLengthLine(rest)
        case None => None
        case Some((plen, tail)) =>
          if ulen + plen != |tail| then None else Some((tail[..ulen], tail[ulen..]))
  }

  /** A run of digits up to the first newline: its value and what follows the newline. */
  function ReadLengthLine(s: string): Option<(nat, string)>
  {
    var i := IndexOf(s, '\n', 0);
    if i == -1 || !IsDigits(s[..i]) then None else Some((DigitsValue(s[..i]), s[i + 1..]))
  }

  /** The frame carries both credentials recoverably, whatever characters they hold. */
  lemma HandshakeRoundTrip(c: Config)
    ensures ParseHandshake(ClientHandshake(c)) == Some((c.username, c.password))
  {
    var u, p := c.username, c.password;
    DecimalRoundTrip(|u|);
    DecimalRoundTrip(|p|);
    FrameFields(DecimalText(|u|), DecimalText(|p|), u, p);
  }

  /** A frame whose two length lines read back as the lengths of the two fields after them. */
  lemma FrameFields(du: string, dp: string, u: string, p: string)
    requires IsDigits(du) && '\n' !in du && DigitsValue(du) == |u|
    requires IsDigits(dp) && '\n' !in dp && DigitsValue(dp) == |p|
    ensures ParseHandshake(HANDSHAKE_PREAMBLE + du + "\n" + dp + "\n" + u + p) == Some((u, p))
  {
    var rest := dp + ['\n'] + (u + p);
    FrameLayout(du, dp, u, p);
    LengthLine(du, rest);
    LengthLine(dp, u + p);
    assert (u + p)[..|u|] == u && (u + p)[|u|..] == p;
  }

  /** The frame is the preamble, then the first length line, the second, and the fields. */
  lemma FrameLayout(du: string, dp: string, u: string, p: string)
    ensures var f := HANDSHAKE_PREAMBLE + du + "\n" + dp + "\n" + u + p;
      |f| >= 6 && f[..6] == HANDSHAKE_PREAMBLE && f[6..] == du + ['\n'] + (dp + ['\n'] + (u + p))
  {
    var f := HANDSHAKE_PREAMBLE + du + "\n" + dp + "\n" + u + p;
    assert f == HANDSHAKE_PREAMBLE + (du + ['\n'] + (dp + ['\n'] + (u + p)));
  }

  /** A digit line ended by a newline reads as its value, followed by what comes after the newline. */
  lemma LengthLine(d: string, tail: string)
    requires IsDigits(d) && '\n' !in d
    ensures ReadLengthLine(d + ['\n'] + tail) == Some((DigitsValue(d), tail))
  {
    var s := d + ['\n'] + tail;
    IndexOfAfter(d, '\n', tail);
    assert s[..|d|] == d && s[|d| + 1..] == tail;
  }

  /** What readBufferToHandshakeRes makes of the reply: a status code text and the message byte. */
  datatype HandshakeReply = HandshakeReply(code: string, msg: Option<Byte>)

  /**
    The code is the first byte as a character followed by the decimal text of
    the second and third bytes; a missing first byte reads as character 0 and
    a missing second or third byte adds nothing (Array.join drops undefined).
  */
  function ReadHandshakeReply(b: seq<Byte>): (r: HandshakeReply)
    ensures |b| >= 3 ==> r.code == [b[0] as char] + DecimalText(b[1]) + DecimalText(b[2])
    ensures r.msg.Some? <==> |b| >= 4
    ensures r.msg.Some? ==> r.msg.value == b[3]
  {
    var h := if |b| > 0 then [b[0] as char] else [0 as char];
    var c1 := if |b| > 1 then DecimalText(b[1]) else "";
    var c2 := if |b| > 2 then DecimalText(b[2]) else "";
    HandshakeReply(h + c1 + c2, if |b| > 3 then Some(b[3]) else None)
  }

  const SUCCESS_CODE: string := "H00"

  /** The reply reads as the success code exactly when it starts with the bytes 'H', 0, 0. */
  lemma {:induction false} SuccessCodeIff(b: seq<Byte>)
    ensures ReadHandshakeReply(b).code == SUCCESS_CODE <==> |b| >= 3 && b[0] == 0x48 && b[1] == 0 && b[2] == 0
  {
    var code := ReadHandshakeReply(b).code;
    if |b| >= 3 {
      var c1, c2 := DecimalText(b[1]), DecimalText(b[2]);
      assert code == [b[0] as char] + c1 + c2;
      DecimalIsZero(b[1]);
      DecimalIsZero(b[2]);
      if code == SUCCESS_CODE {
        assert |c1| == 1 && |c2| == 1;
        assert c1 == code[1..2];
        assert c2 == code[2..3];
        assert c1 == "0" && c2 == "0";
        assert code[0] == b[0] as char;
      }
    } else if |b| == 2 {
      DecimalIsZero(b[1]);
      assert code == [b[0] as char] + DecimalText(b[1]);
      if code == SUCCESS_CODE {
        assert DecimalText(b[1]) == code[1..];
      }
    } else {
      assert |code| == 1;
    }
  }
}

/**
  Wire framing of bridge records: one JSON text per line, a blank line or the end of the stream
  closing a response. The stream holds characters; the JSON codec is a parameter.
 */
module BridgeWire {
  import opened Wrappers
  import opened Text
  import opened BridgeModel

  datatype Codec = Codec(encode: BridgeRecord -> string, parse: string -> Option<BridgeRecord>)

  /** The codec inverts itself on `r` and emits one solid line. */
  predicate Sound(c: Codec, r: BridgeRecord) {
    c.parse(c.encode(r)) == Some(r) && '\n' !in c.encode(r) && Solid(c.encode(r))
  }

  /** `read_line`: up to and including the first newline, or the rest. */
  function ReadLine(s: string): (line: string)
    ensures line <= s && (s != "" ==> line != "")
  {
    if s == "" then ""
    else if s[0] == '\n' then "\n"
    else [s[0]] + ReadLine(s[1..])
  }

  function Prefixed(
      records: seq<BridgeRecord>, r: Result<seq<BridgeRecord>, string>): Result<seq<BridgeRecord>, string> {
    match r case Ok(rs) => Ok(records + rs) case Err(e) => Err(e)
  }

  lemma PrefixedTwice(a: seq<BridgeRecord>, b: seq<BridgeRecord>, r: Result<seq<BridgeRecord>, string>)
    ensures Prefixed(a, Prefixed(b, r)) == Prefixed(a + b, r)
    ensures Prefixed([], r) == r
  {
    if r.Ok? {
      assert a + (b + r.value) == (a + b) + r.value;
      assert [] + r.value == r.value;
    }
  }

  /** What a reader makes of the bytes: the records before the first blank line or the end, or the first error. */
  function Receive(c: Codec, s: string): Result<seq<BridgeRecord>, string>
    decreases |s|
  {
    if s == "" then Ok([])
    else
      var line := ReadLine(s);
      if Trim(line) == "" then Ok([])
      else match DeserializeRecord(c.parse, Trim(line))
        case Err(e) => Err(e)
        case Ok(r) => Prefixed([r], Receive(c, s[|line|..]))
  }

  function Sent(c: Codec, rs: seq<BridgeRecord>): string {
    if rs == [] then "" else c.encode(rs[0]) + "\n" + Sent(c, rs[1..])
  }

  lemma {:induction false} ReadLineOfLine(text: string, tail: string)
    requires '\n' !in text
    ensures ReadLine(text + "\n" + tail) == text + "\n"
  {
    if text == "" {
      assert text + "\n" + tail == "\n" + tail;
    } else {
      assert (text + "\n" + tail)[1..] == text[1..] + "\n" + tail;
      ReadLineOfLine(text[1..], tail);
      assert [text[0]] + (text[1..] + "\n") == text + "\n";
    }
  }

  /** The stream ends, or a blank line follows. */
  predicate Closes(tail: string) {
    tail == "" || Trim(ReadLine(tail)) == ""
  }

  predicate AllCurrent(rs: seq<BridgeRecord>) {
    forall i | 0 <= i < |rs| :: rs[i].bridgeVersion == VERSION
  }

  lemma AllCurrentCons(r: BridgeRecord, rs: seq<BridgeRecord>)
    ensures AllCurrent([r] + rs) <==> r.bridgeVersion == VERSION && AllCurrent(rs)
  {
    if AllCurrent([r] + rs) {
      assert ([r] + rs)[0] == r;
      assert forall i | 0 <= i < |rs| :: rs[i] == ([r] + rs)[i + 1];
    }
  }

  /** One line of the stream: its record, if it has this version, ahead of whatever follows. */
  lemma ReceiveLine(c: Codec, r: BridgeRecord, rest: string)
    requires Sound(c, r)
    ensures Receive(c, c.encode(r) + "\n" + rest) ==
      if r.bridgeVersion == VERSION then Prefixed([r], Receive(c, rest)) else Err("version mismatch")
  {
    var text := c.encode(r);
    var s := text + "\n" + rest;
    ReadLineOfLine(text, rest);
    TrimSolidLine(text);
    assert s[|text + "\n"|..] == rest;
  }

  /** Reading back what was sent: records all of this version come through in order, and a record of
      another version anywhere makes the whole response an error. */
  lemma {:induction false} ReceiveSent(c: Codec, rs: seq<BridgeRecord>, tail: string)
    requires forall i | 0 <= i < |rs| :: Sound(c, rs[i])
    requires Closes(tail)
    ensures Receive(c, Sent(c, rs) + tail) == if AllCurrent(rs) then Ok(rs) else Err("version mismatch")
    decreases |rs|
  {
    if rs == [] {
      assert Sent(c, rs) + tail == tail;
    } else {
      assert Sound(c, rs[0]);
      Associates(c.encode(rs[0]) + "\n", Sent(c, rs[1..]), tail);
      ReceiveLine(c, rs[0], Sent(c, rs[1..]) + tail);
      ReceiveSent(c, rs[1..], tail);
      assert rs == [rs[0]] + rs[1..];
      AllCurrentCons(rs[0], rs[1..]);
    }
  }

  /** The round trip, exactly: a response comes back whole if and only if every record has this version. */
  lemma RoundTripExactly(c: Codec, rs: seq<BridgeRecord>, tail: string)
    requires forall i | 0 <= i < |rs| :: Sound(c, rs[i])
    requires Closes(tail)
    ensures Receive(c, Sent(c, rs) + tail) == Ok(rs) <==> forall i | 0 <= i < |rs| :: rs[i].bridgeVersion == "0.3"
  {
    ReceiveSent(c, rs, tail);
  }

  lemma {:induction false} SentSnoc(c: Codec, rs: seq<BridgeRecord>, r: BridgeRecord)
    ensures Sent(c, rs + [r]) == Sent(c, rs) + c.encode(r) + "\n"
  {
    if rs == [] {
      assert rs + [r] == [r] && [r][1..] == [];
    } else {
      assert (rs + [r])[1..] == rs[1..] + [r];
      SentSnoc(c, rs[1..], r);
    }
  }

  /** Both directions of the socket: bytes written and not yet read by the peer, bytes to read. */
  class IpcClient {
    const codec: Codec
    var written: string
    var incoming: string

    constructor (codec: Codec, incoming: string)
      ensures this.codec == codec && written == "" && this.incoming == incoming
    {
      this.codec, written, this.incoming := codec, "", incoming;
    }

    method SendRecord(r: BridgeRecord, ghost sent: seq<BridgeRecord>)
      requires written == Sent(codec, sent)
      modifies `written
      ensures written == Sent(codec, sent + [r])
    {
      SentSnoc(codec, sent, r);
      var line := codec.encode(r);
      written := written + line;
      written := written + "\n";
    }

    method ReceiveRecords() returns (result: Result<seq<BridgeRecord>, string>)
      modifies `incoming
      ensures result == Receive(codec, old(incoming))
    {
      var records := [];
      PrefixedTwice([], [], Receive(codec, incoming));
      while true
        invariant Receive(codec, old(incoming)) == Prefixed(records, Receive(codec, incoming))
        decreases |incoming|
      {
        var line := ReadLine(incoming);
        if |line| == 0 {
          break;
        }
        var trimmed := Trim(line);
        if trimmed == "" {
          break;
        }
        incoming := incoming[|line|..];
        ghost var rest := Receive(codec, incoming);
        match DeserializeRecord(codec.parse, trimmed) {
          case Err(e) => return Err(e);
          case Ok(r) =>
            PrefixedTwice(records, [r], rest);
            records := records + [r];
        }
      }
      assert records + [] == records;
      return Ok(records);
    }
  }
}

/** What a session delivers, as a function of the bytes the peer sends. */
module Session {
  import opened ByteStrings
  import opened Blocks

  const MAX_UINT32 := 0xFFFF_FFFF

  /** "block" and "extmsg". */
  const BLOCK: Bytes := [98, 108, 111, 99, 107]
  const EXTMSG: Bytes := [101, 120, 116, 109, 115, 103]

  /** The network's magic as the four bytes it is sent as, and the client's settings. */
  datatype Net = Net(sha256: Hash, magic: Bytes, limit: nat)

  datatype MessageHeader = MessageHeader(command: Bytes, length: nat, checksum: Bytes)

  datatype HeaderRead =
    | Header(header: MessageHeader, consumed: nat)
    | NoHeader(outcome: Outcome, consumed: nat)

  predicate Ascii(s: Bytes) {
    forall i :: 0 <= i < |s| ==> s[i] < 128
  }

  /** `strip("\x00")`, which drops NULs on both sides. */
  function StripNul(s: Bytes): Bytes {
    if s == [] then []
    else if s[0] == 0 then StripNul(s[1..])
    else if Last(s) == 0 then StripNul(AllButLast(s))
    else s
  }

  function ReadHeaderFrom(net: Net, bytes: Bytes): (r: HeaderRead)
    ensures r.NoHeader? ==> r.outcome != Completed
    ensures r.Header? ==> 24 <= r.consumed <= |bytes|
  {
    if |bytes| < 24 then NoHeader(ConnectionReset, |bytes|)
    else if !Ascii(bytes[4..16]) || bytes[..4] != net.magic then NoHeader(Misbehaving, 24)
    else if StripNul(bytes[4..16]) != EXTMSG then
      Header(MessageHeader(StripNul(bytes[4..16]), LittleEndian(bytes[16..20]), bytes[20..24]), 24)
    else if |bytes| < 44 then NoHeader(ConnectionReset, |bytes|)
    else if LittleEndian(bytes[16..20]) != MAX_UINT32 || bytes[20..24] != [0, 0, 0, 0] then NoHeader(Crashed, 44)
    else if !Ascii(bytes[24..36]) then NoHeader(Misbehaving, 44)
    else Header(MessageHeader(StripNul(bytes[24..36]), LittleEndian(bytes[36..44]), bytes[20..24]), 44)
  }

  /** The three branches: small payload, big block, big message that is no block. */
  ghost function PayloadRun(net: Net, header: MessageHeader, bytes: Bytes): Run {
    if header.length >= net.limit && header.command == BLOCK then
      BigBlockRun(net.sha256, bytes, net.limit, header.length, header.checksum)
    else if |bytes| < header.length then Run([], |bytes|, ConnectionReset)
    else
      var payload := bytes[..header.length];
      if Checksum(net.sha256, payload) != header.checksum then Run([], header.length, Misbehaving)
      else if header.command == BLOCK then
        SmallBlockRun(net.sha256, payload, header.length).(consumed := header.length)
      else Run([MessageQueued(header.command, payload)], header.length, Completed)
  }

  /** One turn of the session loop. */
  ghost function MessageRun(net: Net, bytes: Bytes): Run {
    match ReadHeaderFrom(net, bytes)
    case NoHeader(outcome, consumed) => Run([], consumed, outcome)
    case Header(header, consumed) => After([], consumed, PayloadRun(net, header, Drop(bytes, consumed)))
  }

  /** The session loop: it ends with the first message that does not complete. */
  ghost function SessionRun(net: Net, bytes: Bytes): Run
    decreases |bytes|
  {
    var run := MessageRun(net, bytes);
    if run.outcome != Completed then run
    else After(run.events, run.consumed, SessionRun(net, Drop(bytes, run.consumed)))
  }

  /** A completed message moves the session on to the bytes after it. */
  lemma SessionAdvances(net: Net, bytes: Bytes, done: seq<Event>, consumed: nat)
    requires SessionRun(net, bytes) == After(done, consumed, SessionRun(net, Drop(bytes, consumed)))
    ensures var run := MessageRun(net, Drop(bytes, consumed));
      if run.outcome != Completed then SessionRun(net, bytes) == After(done, consumed, run)
      else
        var done', consumed' := done + run.events, consumed + run.consumed;
        SessionRun(net, bytes) == After(done', consumed', SessionRun(net, Drop(bytes, consumed')))
  {
    hide MessageRun;
    var run := MessageRun(net, Drop(bytes, consumed));
    DropDrop(bytes, consumed, run.consumed);
  }
}

/** The line framer: a transformed command becomes the payload
    "N<line> <command>", the exclusive-or of the payload's bytes is appended
    in decimal after a '*', and the frame ends with a line feed. A decoder,
    as the receiving firmware reads a frame, is the partner that every frame
    must satisfy. */
module Framing {
  import opened Text

  /** Each character of a line stands for one byte; the cast to `unsigned
      char` keeps the low eight bits. */
  function ByteOf(c: char): bv8 {
    (c as int % 256) as bv8
  }

  /** The exclusive-or of every byte of `s`, folded from the front. */
  function Checksum(s: string): bv8 {
    if s == [] then 0 else Checksum(s[..|s| - 1]) ^ ByteOf(s[|s| - 1])
  }

  /** The checksum of a concatenation is the exclusive-or of the two
      checksums. */
  lemma {:induction false} ChecksumAppend(a: string, b: string)
    ensures Checksum(a + b) == Checksum(a) ^ Checksum(b)
    decreases |b|
  {
    if b == [] {
      assert a + b == a;
    } else {
      var b' := b[..|b| - 1];
      assert (a + b)[..|a + b| - 1] == a + b';
      ChecksumAppend(a, b');
    }
  }

  /** Changing exactly one byte of a payload always changes its checksum. */
  lemma SingleByteChangeDetected(a: string, c: char, d: char, b: string)
    requires ByteOf(c) != ByteOf(d)
    ensures Checksum(a + [c] + b) != Checksum(a + [d] + b)
  {
    ChecksumAppend(a + [c], b);
    ChecksumAppend(a + [d], b);
    assert (a + [c])[..|a|] == a;
    assert (a + [d])[..|a|] == a;
  }

  /** The accumulating loop: `cs ^= (unsigned char)c` over the payload. */
  method ComputeChecksum(payload: string) returns (cs: bv8)
    ensures cs == Checksum(payload)
  {
    cs := 0;
    for i := 0 to |payload|
      invariant cs == Checksum(payload[..i])
    {
      assert payload[..i + 1][..i] == payload[..i];
      cs := cs ^ ByteOf(payload[i]);
    }
    assert payload[..|payload|] == payload;
  }

  /** "N" + line number + " " + command. */
  function Payload(lineNum: nat, cmd: string): string {
    "N" + NatToString(lineNum) + " " + cmd
  }

  /** What follows a payload: '*', the checksum in decimal, a line feed. */
  function Trailer(cs: nat): string {
    "*" + NatToString(cs) + "\n"
  }

  /** A payload sealed with its own checksum. */
  function Seal(payload: string): string {
    payload + Trailer(Checksum(payload) as nat)
  }

  /** The bytes written for one command. */
  function Wire(lineNum: nat, cmd: string): string {
    Seal(Payload(lineNum, cmd))
  }

  /** Frame construction as the streaming loop does it. */
  method BuildFrame(lineNum: nat, cmd: string) returns (wire: string)
    ensures wire == Wire(lineNum, cmd)
  {
    var payload := "N" + NatToString(lineNum) + " " + cmd;
    var cs := ComputeChecksum(payload);
    wire := payload + "*" + NatToString(cs as nat) + "\n";
    assert wire == payload + Trailer(cs as nat);
  }

  // ---------------------------------------------------------------------
  // The receiving side

  datatype Frame = Frame(lineNum: nat, command: string)

  /** Index of the last occurrence of `c` in `s`. */
  function LastIndexOf(s: string, c: char): (r: Option<nat>)
    ensures r.Some? ==> (r.value < |s| && s[r.value] == c &&
      forall k :: r.value < k < |s| ==> s[k] != c)
    ensures r.None? ==> forall k :: 0 <= k < |s| ==> s[k] != c
  {
    if s == [] then None
    else if s[|s| - 1] == c then Some(|s| - 1)
    else LastIndexOf(s[..|s| - 1], c)
  }

  /** Index of the first occurrence of `c` in `s`. */
  function IndexOf(s: string, c: char): (r: Option<nat>)
    ensures r.Some? ==> (r.value < |s| && s[r.value] == c &&
      forall k :: 0 <= k < r.value ==> s[k] != c)
    ensures r.None? ==> forall k :: 0 <= k < |s| ==> s[k] != c
  {
    if s == [] then None
    else if s[0] == c then Some(0)
    else match IndexOf(s[1..], c)
      case None => None
      case Some(k) => Some(k + 1)
  }

  /** How a receiver reads a payload: "N", a decimal line number, a space,
      and the command. */
  function ParsePayload(payload: string): Option<Frame> {
    if payload == [] || payload[0] != 'N' then None
    else
      var rest := payload[1..];
      match IndexOf(rest, ' ')
      case None => None
      case Some(sp) =>
        match ParseNat(rest[..sp])
        case None => None
        case Some(n) => Some(Frame(n, rest[sp + 1..]))
  }

  /** How a receiver checks and reads a frame: it must end in a line feed,
      and the text after the last '*' must be a decimal number equal to the
      exclusive-or of the payload before it. */
  function DecodeFrame(wire: string): Option<Frame> {
    if wire == [] || wire[|wire| - 1] != '\n' then None
    else
      var body := wire[..|wire| - 1];
      match LastIndexOf(body, '*')
      case None => None
      case Some(star) =>
        match ParseNat(body[star + 1..])
        case None => None
        case Some(cs) =>
          if cs != Checksum(body[..star]) as nat then None else ParsePayload(body[..star])
  }

  /** A payload gives back its line number and command. */
  lemma PayloadParses(lineNum: nat, cmd: string)
    ensures ParsePayload(Payload(lineNum, cmd)) == Some(Frame(lineNum, cmd))
  {
    var payload := Payload(lineNum, cmd);
    var num := NatToString(lineNum);
    var rest := payload[1..];
    assert rest == num + " " + cmd;
    assert rest[|num|] == ' ';
    forall k | 0 <= k < |num| ensures rest[k] != ' ' {
      assert rest[k] == num[k];
    }
    IndexOfUnique(rest, ' ', |num|);
    assert rest[..|num|] == num;
    assert rest[|num| + 1..] == cmd;
    ParsePrinted(lineNum);
  }

  /** A payload followed by '*', a decimal number and a line feed: the
      receiver finds the payload and the number again. */
  lemma {:induction false} SplitAtStar(payload: string, cs: nat)
    ensures var wire := payload + Trailer(cs);
      var body := wire[..|wire| - 1];
      && wire != [] && wire[|wire| - 1] == '\n'
      && LastIndexOf(body, '*') == Some(|payload|)
      && body[..|payload|] == payload
      && ParseNat(body[|payload| + 1..]) == Some(cs)
  {
    var digits := NatToString(cs);
    var wire := payload + Trailer(cs);
    var body := payload + "*" + digits;
    assert wire == body + "\n";
    assert wire[..|wire| - 1] == body;
    assert body[|payload|] == '*';
    forall k | |payload| < k < |body| ensures body[k] != '*' {
      assert body[k] == digits[k - |payload| - 1];
    }
    LastIndexOfUnique(body, '*', |payload|);
    assert body[..|payload|] == payload;
    assert body[|payload| + 1..] == digits;
    ParsePrinted(cs);
  }

  /** A frame whose appended number is not the exclusive-or of its payload
      is rejected. */
  lemma WrongChecksumRejected(payload: string, cs: nat)
    requires cs != Checksum(payload) as nat
    ensures DecodeFrame(payload + Trailer(cs)).None?
  {
    SplitAtStar(payload, cs);
  }

  /** Every frame the streamer builds passes the receiver's check and gives
      back the line number and the command: the appended checksum is the
      exclusive-or of the payload it follows. */
  lemma DecodeWire(lineNum: nat, cmd: string)
    ensures DecodeFrame(Wire(lineNum, cmd)) == Some(Frame(lineNum, cmd))
  {
    DecodeSealed(Payload(lineNum, cmd));
    PayloadParses(lineNum, cmd);
  }

  /** A sealed payload passes the checksum test and is read as its payload. */
  lemma DecodeSealed(payload: string)
    ensures DecodeFrame(Seal(payload)) == ParsePayload(payload)
  {
    var cs := Checksum(payload) as nat;
    var wire := payload + Trailer(cs);
    SplitAtStar(payload, cs);
    var body := wire[..|wire| - 1];
    assert Checksum(body[..|payload|]) as nat == cs;
  }

  lemma LastIndexOfUnique(s: string, c: char, i: nat)
    requires i < |s| && s[i] == c
    requires forall k :: i < k < |s| ==> s[k] != c
    ensures LastIndexOf(s, c) == Some(i)
  {
    var r := LastIndexOf(s, c);
    assert r.Some?;
    assert s[r.value] == c;
  }

  lemma IndexOfUnique(s: string, c: char, i: nat)
    requires i < |s| && s[i] == c
    requires forall k :: 0 <= k < i ==> s[k] != c
    ensures IndexOf(s, c) == Some(i)
  {
    var r := IndexOf(s, c);
    assert r.Some?;
    assert s[r.value] == c;
  }

  /** A sealed payload with one byte changed in transit is rejected by the
      receiver; this covers every frame, as `Wire` seals its payload. */
  lemma CorruptedPayloadRejected(payload: string, k: nat, d: char)
    requires k < |payload| && ByteOf(payload[k]) != ByteOf(d)
    ensures DecodeFrame(payload[k := d] + Seal(payload)[|payload|..]).None?
  {
    var cs := Checksum(payload) as nat;
    var bad := payload[k := d];
    assert Seal(payload)[|payload|..] == Trailer(cs);
    ChangedByteChecksum(payload, k, d);
    WrongChecksumRejected(bad, cs);
  }

  /** Changing one byte of a payload changes its checksum. */
  lemma ChangedByteChecksum(payload: string, k: nat, d: char)
    requires k < |payload| && ByteOf(payload[k]) != ByteOf(d)
    ensures Checksum(payload[k := d]) != Checksum(payload)
  {
    assert payload == payload[..k] + [payload[k]] + payload[k + 1..];
    assert payload[k := d] == payload[..k] + [d] + payload[k + 1..];
    SingleByteChangeDetected(payload[..k], payload[k], d, payload[k + 1..]);
  }
}

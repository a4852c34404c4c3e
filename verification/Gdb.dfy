/** The kernel debugger's packet framing: the receiving state machines and the sender. */
module GdbStub {
  import opened Options

  type byte = x: int | 0 <= x < 256

  const CTRL_C: byte := 3
  const DOLLAR: byte := 36
  const HASH: byte := 35
  const PLUS: byte := 43
  const MINUS: byte := 45
  const DETACH: byte := 68

  /** char is signed. */
  function Signed(ch: byte): int {
    if ch < 128 then ch else ch - 256
  }

  /** fromhex: bit 0x40 tells letters from digits, bit 0x20 lower case from upper case. */
  function FromHex(ch: byte): int {
    if ch / 64 % 2 == 1 then
      if ch / 32 % 2 == 1 then Signed(ch) - 97 + 10 else Signed(ch) - 65 + 10
    else Signed(ch) - 48
  }

  predicate IsHexDigit(ch: byte) {
    48 <= ch <= 57 || 65 <= ch <= 70 || 97 <= ch <= 102
  }

  function HexDigit(n: nat): byte
    requires n < 16
  {
    if n < 10 then 48 + n else 97 + n - 10
  }

  lemma HexDigitDecodes(n: nat)
    requires n < 16
    ensures IsHexDigit(HexDigit(n)) && FromHex(HexDigit(n)) == n
  {
  }

  /** The other way round only upper case is lost. */
  lemma HexDigitEncodes(ch: byte)
    requires IsHexDigit(ch)
    ensures 0 <= FromHex(ch) < 16 && HexDigit(FromHex(ch)) == if 65 <= ch <= 70 then ch + 32 else ch
  {
  }

  /** Nothing is checked: besides the hex digits, the six characters behind 9 count as 10 to 15, and
      the one before each A as 9. */
  lemma {:induction false} FromHexIff(ch: byte, n: nat)
    requires n < 16
    ensures FromHex(ch) == n <==> ch == 48 + n || (9 <= n && (ch == 55 + n || ch == 87 + n))
  {
  }

  /** Checksums are kept in eight bits. */
  function Sum(s: seq<byte>): byte {
    if s == [] then 0 else (s[0] + Sum(s[1..])) % 256
  }

  // ---- Receiver ----

  datatype Main = Junk | Data | Checksum | Checksum2

  datatype Phase = Command | Arguments

  /** What the stub does: acknowledge, reject, run a command with its argument text, react to
      CTRL-C, stop the kernel on first attachment, or fail for want of a current command. */
  datatype Event = Ack | Nack | Callback(name: byte, args: seq<byte>) | Attention | Stop | Fault

  /** The argument text of a command, and how much of it belongs to the packet being read. */
  datatype Buffer = Buffer(text: seq<byte>, pos: nat)

  const BUFFER_SIZE: nat := 128

  datatype Stub = Stub(main: Main, checksum: byte, phase: Phase, current: Option<byte>,
                       buffers: map<byte, Buffer>, attached: bool, dead: bool)

  const BOOTED: Stub := Stub(Junk, 0, Command, None, map[], false, false)

  /** 0 names the command for everything unknown; the rest are ? H c D s m M g G P. */
  predicate Known(name: byte) {
    name in [0, 63, 72, 99, 68, 115, 109, 77, 103, 71, 80]
  }

  function BufferOf(st: Stub, name: byte): Buffer {
    if name in st.buffers then st.buffers[name] else Buffer([], 0)
  }

  /** The text is cut where the packet has got to, and extended. Behind the last place of the
      array lies the low byte of the position itself: the terminator of a full buffer sets the
      position back to 0. */
  function Extend(b: Buffer, ch: byte): Buffer {
    if b.pos >= BUFFER_SIZE then b
    else Buffer(Cut(b) + [ch], if b.pos + 1 == BUFFER_SIZE then 0 else b.pos + 1)
  }

  function Cut(b: Buffer): seq<byte> {
    if b.pos <= |b.text| then b.text[..b.pos] else b.text
  }

  /** kdb_command_receive. */
  function CommandReceive(st: Stub, ch: byte): (Stub, seq<Event>) {
    match st.phase
    case Command =>
      if Known(ch) then
        (st.(phase := Arguments, current := Some(ch),
             buffers := st.buffers[ch := Buffer(BufferOf(st, ch).text, 0)]), [])
      else (st.(phase := Arguments), [])
    case Arguments =>
      if st.current.None? then (st.(dead := true), [Fault])
      else
        var name := st.current.value;
        (st.(buffers := st.buffers[name := Extend(BufferOf(st, name), ch)]), [])
  }

  /** The second digit was right: acknowledge, run the command, make ready for the next one. */
  function Accept(st: Stub): (Stub, seq<Event>) {
    if st.current.None? then (st.(dead := true), [Ack, Fault])
    else
      var name := st.current.value;
      (st.(main := Junk, phase := Command, current := Some(0),
           attached := !st.attached || name != DETACH),
       [Ack, Callback(name, BufferOf(st, name).text)] + (if st.attached then [] else [Stop]))
  }

  /** kdb_receive. */
  function Step(st: Stub, ch: byte): (Stub, seq<Event>) {
    if st.dead then (st, [])
    else match st.main
      case Junk =>
        if ch == CTRL_C then (st, [Attention])
        else if ch == DOLLAR then (st.(checksum := 0, main := Data), [])
        else (st, [])
      case Data =>
        if ch == HASH then (st.(main := Checksum), [])
        else CommandReceive(st.(checksum := (st.checksum + ch) % 256), ch)
      case Checksum =>
        if FromHex(ch) != st.checksum / 16 then (st.(main := Junk), [Nack])
        else (st.(main := Checksum2), [])
      case Checksum2 =>
        if FromHex(ch) == st.checksum % 16 then Accept(st)
        else (st.(main := Junk), [Nack])
  }

  function Run(st: Stub, s: seq<byte>): (Stub, seq<Event>)
    decreases |s|
  {
    if s == [] then (st, [])
    else
      var (st1, e1) := Step(st, s[0]);
      var (st2, e2) := Run(st1, s[1..]);
      (st2, e1 + e2)
  }

  /** The receiver with its global variables. */
  class Receiver {
    var main: Main
    var checksum: byte
    var phase: Phase
    var current: Option<byte>
    var buffers: map<byte, Buffer>
    var attached: bool
    var dead: bool
    var events: seq<Event>

    ghost function State(): Stub
      reads this
    {
      Stub(main, checksum, phase, current, buffers, attached, dead)
    }

    constructor ()
      ensures State() == BOOTED && events == []
    {
      main, checksum, phase, current, buffers := Junk, 0, Command, None, map[];
      attached, dead, events := false, false, [];
    }

    method Receive(ch: byte)
      modifies this
      ensures State() == Step(old(State()), ch).0
      ensures events == old(events) + Step(old(State()), ch).1
    {
      if dead {
        return;
      }
      match main {
        case Junk => JunkProcess(ch);
        case Data => DataProcess(ch);
        case Checksum => ChecksumProcess(ch);
        case Checksum2 => Checksum2Process(ch);
      }
    }

    method JunkProcess(ch: byte)
      requires main == Junk && !dead
      modifies this
      ensures State() == Step(old(State()), ch).0 && events == old(events) + Step(old(State()), ch).1
    {
      if ch == CTRL_C {
        events := events + [Attention];
      } else if ch == DOLLAR {
        checksum := 0;
        main := Data;
      }
    }

    method DataProcess(ch: byte)
      requires main == Data && !dead
      modifies this
      ensures State() == Step(old(State()), ch).0 && events == old(events) + Step(old(State()), ch).1
    {
      if ch == HASH {
        main := Checksum;
        return;
      }
      checksum := (checksum + ch) % 256;
      match phase {
        case Command =>
          phase := Arguments;
          if Known(ch) {
            current := Some(ch);
            var text := if ch in buffers then buffers[ch].text else [];
            buffers := buffers[ch := Buffer(text, 0)];
          }
        case Arguments =>
          if current.None? {
            dead := true;
            events := events + [Fault];
          } else {
            var name := current.value;
            var b := if name in buffers then buffers[name] else Buffer([], 0);
            buffers := buffers[name := Extend(b, ch)];
          }
      }
    }

    method ChecksumProcess(ch: byte)
      requires main == Checksum && !dead
      modifies this
      ensures State() == Step(old(State()), ch).0 && events == old(events) + Step(old(State()), ch).1
    {
      if FromHex(ch) != checksum / 16 {
        events := events + [Nack];
        main := Junk;
      } else {
        main := Checksum2;
      }
    }

    method Checksum2Process(ch: byte)
      requires main == Checksum2 && !dead
      modifies this
      ensures State() == Step(old(State()), ch).0 && events == old(events) + Step(old(State()), ch).1
    {
      if FromHex(ch) == checksum % 16 {
        events := events + [Ack];
        if current.None? {
          dead := true;
          events := events + [Fault];
          return;
        }
        var wasAttached := attached;
        var name := current.value;
        events := events + [Callback(name, if name in buffers then buffers[name].text else [])];
        if name == DETACH {
          attached := false;
        }
        phase := Command;
        current := Some(0);
        if !wasAttached {
          attached := true;
          main := Junk;
          events := events + [Stop];
          return;
        }
      } else {
        events := events + [Nack];
      }
      main := Junk;
    }
  }

  // ---- What one packet does ----

  /** The first character of the input; a step that does nothing visible adds no event. */
  lemma {:induction false} RunStep(st: Stub, s: seq<byte>)
    requires s != []
    ensures Step(st, s[0]).1 == [] ==> Run(st, s) == Run(Step(st, s[0]).0, s[1..])
    ensures |s| == 1 ==> Run(st, s) == Step(st, s[0])
  {
    var (st1, e1) := Step(st, s[0]);
    var (st2, e2) := Run(st1, s[1..]);
    assert Run(st, s) == (st2, e1 + e2);
    if e1 == [] {
      assert e1 + e2 == e2;
    }
    if |s| == 1 {
      assert s[1..] == [] && Run(st1, []) == (st1, []) && e1 + [] == e1;
    }
  }

  lemma {:induction false} RunConcat(st: Stub, a: seq<byte>, b: seq<byte>)
    ensures Run(st, a + b).0 == Run(Run(st, a).0, b).0
    ensures Run(st, a + b).1 == Run(st, a).1 + Run(Run(st, a).0, b).1
    decreases |a|
  {
    if a == [] {
      assert a + b == b;
    } else {
      assert (a + b)[1..] == a[1..] + b;
      RunConcat(Step(st, a[0]).0, a[1..], b);
    }
  }

  ghost function ExtendAll(b: Buffer, s: seq<byte>): Buffer
    decreases |s|
  {
    if s == [] then b else ExtendAll(Extend(b, s[0]), s[1..])
  }

  lemma {:induction false} ExtendAllConcat(b: Buffer, s: seq<byte>, t: seq<byte>)
    ensures ExtendAll(b, s + t) == ExtendAll(ExtendAll(b, s), t)
    decreases |s|
  {
    if s == [] {
      assert s + t == t;
    } else {
      assert (s + t)[1..] == s[1..] + t;
      ExtendAllConcat(Extend(b, s[0]), s[1..], t);
    }
  }

  predicate SoundBuffer(b: Buffer) {
    b.pos <= |b.text| <= BUFFER_SIZE && b.pos < BUFFER_SIZE
  }

  /** What a buffer that starts over whenever it is full holds of a text. */
  function LastBlock(s: seq<byte>): (r: seq<byte>)
    ensures |r| <= BUFFER_SIZE && (s != [] ==> |r| > 0)
    ensures |s| <= BUFFER_SIZE ==> r == s
  {
    if s == [] then [] else s[|s| - 1 - (|s| - 1) % BUFFER_SIZE..]
  }

  lemma {:induction false} ExtendStep(b: Buffer, ch: byte)
    requires SoundBuffer(b)
    ensures Extend(b, ch) == Buffer(b.text[..b.pos] + [ch], if b.pos + 1 == BUFFER_SIZE then 0 else b.pos + 1)
    ensures SoundBuffer(Extend(b, ch))
  {
  }

  /** The text behind the position of the extended buffer, and that of the buffer itself, end in
      the same block. */
  lemma {:induction false} SameBlock(b: Buffer, s: seq<byte>)
    requires |s| > 1 && SoundBuffer(b)
    ensures var b1 := Extend(b, s[0]);
            LastBlock(b1.text[..b1.pos] + s[1..]) == LastBlock(b.text[..b.pos] + s)
  {
    hide LastBlock;
    ExtendStep(b, s[0]);
    hide Extend;
    var b1, front := Extend(b, s[0]), b.text[..b.pos] + [s[0]];
    FrontFirst(b.text[..b.pos], s);
    if b1.pos == 0 {
      assert b1.text[..0] + s[1..] == s[1..];
      BlockBehind(front, s[1..]);
    } else {
      assert b1.text[..b1.pos] == front;
    }
  }

  lemma {:induction false} FrontFirst(a: seq<byte>, s: seq<byte>)
    requires s != []
    ensures a + s == (a + [s[0]]) + s[1..]
  {
  }

  lemma {:induction false} LastBlockFrom(s: seq<byte>, m: nat)
    requires s != [] && m == |s| - 1 - (|s| - 1) % BUFFER_SIZE
    ensures LastBlock(s) == s[m..]
  {
  }

  lemma {:induction false} Suffix(a: seq<byte>, s: seq<byte>, m: nat)
    requires m <= |s|
    ensures (a + s)[|a| + m..] == s[m..]
  {
  }

  /** A full block in front does not show. */
  lemma {:induction false} BlockBehind(full: seq<byte>, s: seq<byte>)
    requires |full| == BUFFER_SIZE && s != []
    ensures LastBlock(full + s) == LastBlock(s)
  {
    hide LastBlock;
    var m := |s| - 1 - (|s| - 1) % BUFFER_SIZE;
    BlockShift(|s|);
    LastBlockFrom(s, m);
    LastBlockFrom(full + s, BUFFER_SIZE + m);
    Suffix(full, s, m);
  }

  /** Argument text replaces what the buffer held behind its position. */
  lemma {:induction false} ExtendAllText(b: Buffer, s: seq<byte>)
    requires s != [] && SoundBuffer(b)
    ensures ExtendAll(b, s).text == LastBlock(b.text[..b.pos] + s)
    decreases |s|
  {
    hide LastBlock, Extend;
    ExtendStep(b, s[0]);
    if |s| == 1 {
      assert s[1..] == [] && s == [s[0]];
      assert ExtendAll(b, s) == Extend(b, s[0]);
      ShortBlock(b.text[..b.pos] + s);
    } else {
      ExtendAllText(Extend(b, s[0]), s[1..]);
      SameBlock(b, s);
    }
  }

  lemma {:induction false} ShortBlock(s: seq<byte>)
    requires |s| <= BUFFER_SIZE
    ensures LastBlock(s) == s
  {
  }

  lemma BlockShift(n: nat)
    requires n > 0
    ensures (BUFFER_SIZE + n - 1) % BUFFER_SIZE == (n - 1) % BUFFER_SIZE
  {
  }

  /** Reading argument characters. */
  lemma {:induction false} ArgumentsRun(st: Stub, s: seq<byte>)
    requires st.main == Data && !st.dead && st.phase == Arguments && st.current.Some? && HASH !in s
    ensures Run(st, s).1 == []
    ensures Run(st, s).0 == After(st, s)
    decreases |s|
  {
    hide Step, Sum, Filled, Extend, BufferOf;
    if s == [] {
      FilledEmpty(st);
      assert After(st, []) == st;
    } else {
      var st1 := Step(st, s[0]).0;
      assert s[0] in s && forall ch <- s[1..] :: ch in s;
      ArgumentStep(st, s[0]);
      RunStep(st, s);
      ArgumentsRun(st1, s[1..]);
      AfterStep(st, s);
    }
  }

  /** The stub after argument characters. */
  ghost function After(st: Stub, s: seq<byte>): Stub
    requires st.current.Some?
  {
    st.(checksum := (st.checksum + Sum(s)) % 256, buffers := Filled(st, s))
  }

  lemma {:induction false} AfterStep(st: Stub, s: seq<byte>)
    requires st.main == Data && !st.dead && st.phase == Arguments && st.current.Some?
    requires s != [] && s[0] != HASH
    ensures After(Step(st, s[0]).0, s[1..]) == After(st, s)
  {
    hide Step;
    ArgumentStep(st, s[0]);
    SumModulo(st.checksum, s[0], Sum(s[1..]));
    SumFront(s);
    FilledStep(st, Step(st, s[0]).0, s);
  }

  lemma {:induction false} SumFront(s: seq<byte>)
    requires s != []
    ensures Sum(s) == (s[0] + Sum(s[1..])) % 256
  {
  }

  lemma {:induction false} SumEmpty()
    ensures Sum([]) == 0
  {
  }

  lemma {:induction false} FilledEmpty(st: Stub)
    requires st.current.Some?
    ensures Filled(st, []) == st.buffers && Sum([]) == 0
  {
  }

  lemma {:induction false} ArgumentStep(st: Stub, ch: byte)
    requires st.main == Data && !st.dead && st.phase == Arguments && st.current.Some? && ch != HASH
    ensures var name := st.current.value;
            Step(st, ch) ==
              (st.(checksum := (st.checksum + ch) % 256,
                   buffers := st.buffers[name := Extend(BufferOf(st, name), ch)]), [])
  {
  }

  lemma SumModulo(a: byte, b: byte, c: byte)
    ensures ((a + b) % 256 + c) % 256 == (a + (b + c) % 256) % 256
  {
  }

  lemma {:induction false} FilledStep(st: Stub, st1: Stub, s: seq<byte>)
    requires s != [] && st.current.Some? && st1.current == st.current
    requires st1.buffers == st.buffers[st.current.value := Extend(BufferOf(st, st.current.value), s[0])]
    ensures Filled(st1, s[1..]) == Filled(st, s)
  {
    var name := st.current.value;
    assert BufferOf(st1, name) == Extend(BufferOf(st, name), s[0]);
    assert ExtendAll(BufferOf(st, name), s) == ExtendAll(BufferOf(st1, name), s[1..]);
    if s[1..] == [] {
      assert ExtendAll(BufferOf(st1, name), []) == BufferOf(st1, name);
    }
  }

  ghost function Filled(st: Stub, s: seq<byte>): map<byte, Buffer>
    requires st.current.Some?
  {
    if s == [] then st.buffers
    else st.buffers[st.current.value := ExtendAll(BufferOf(st, st.current.value), s)]
  }

  /** The stub after the first character of a body has been read. */
  ghost function Opened(st: Stub, body: seq<byte>): Stub {
    if st.phase == Command && body != [] && Known(body[0]) then
      st.(current := Some(body[0]), buffers := st.buffers[body[0] := Buffer(BufferOf(st, body[0]).text, 0)])
    else st
  }

  /** The characters of a body that are taken as arguments. */
  ghost function ArgumentPart(st: Stub, body: seq<byte>): seq<byte> {
    if st.phase == Command && body != [] then body[1..] else body
  }

  /** There is a command to run: the packet names one, or one is left over. */
  ghost predicate CanRun(st: Stub, body: seq<byte>) {
    Opened(st, body).current.Some?
  }

  ghost function AfterBody(st: Stub, body: seq<byte>): Stub
    requires CanRun(st, body)
  {
    Opened(st, body).(main := Data, checksum := Sum(body),
                      phase := if body == [] then st.phase else Arguments,
                      buffers := Filled(Opened(st, body), ArgumentPart(st, body)))
  }

  lemma {:induction false} BodyRun(st: Stub, body: seq<byte>)
    requires st.main == Junk && !st.dead && HASH !in body && CanRun(st, body)
    ensures Run(st, [DOLLAR] + body) == (AfterBody(st, body), [])
  {
    var st0 := st.(checksum := 0, main := Data);
    assert Step(st, DOLLAR) == (st0, []);
    hide Step, Extend;
    assert ([DOLLAR] + body)[1..] == body;
    RunStep(st, [DOLLAR] + body);
    if body != [] && st.phase == Command {
      NamedRun(st, st0, body);
    } else if body != [] {
      ArgumentsRun(st0, body);
      UnnamedBody(st, st0, body);
    }
  }

  lemma {:induction false} UnnamedBody(st: Stub, st0: Stub, body: seq<byte>)
    requires st0 == st.(checksum := 0, main := Data) && st.phase == Arguments && body != [] && CanRun(st, body)
    ensures After(st0, body) == AfterBody(st, body)
  {
    assert (0 + Sum(body)) % 256 == Sum(body);
    assert BufferOf(st0, st.current.value) == BufferOf(st, st.current.value);
  }

  /** The first character of the body is read as the name of a command. */
  lemma {:induction false} NamedRun(st: Stub, st0: Stub, body: seq<byte>)
    requires !st.dead && HASH !in body && body != [] && st.phase == Command && CanRun(st, body)
    requires st0 == st.(checksum := 0, main := Data)
    ensures Run(st0, body) == (AfterBody(st, body), [])
  {
    hide Run, Step, CanRun;
    var st1 := Step(st0, body[0]).0;
    assert body[0] in body && forall ch <- body[1..] :: ch in body;
    NameStep(st, st0, body);
    RunStep(st0, body);
    ArgumentsRun(st1, body[1..]);
  }

  lemma {:induction false} NameStep(st: Stub, st0: Stub, body: seq<byte>)
    requires !st.dead && HASH !in body && body != [] && st.phase == Command && CanRun(st, body)
    requires st0 == st.(checksum := 0, main := Data)
    ensures var (st1, events) := Step(st0, body[0]);
            && events == [] && st1.main == Data && !st1.dead && st1.phase == Arguments && st1.current.Some?
            && After(st1, body[1..]) == AfterBody(st, body)
  {
    var st1 := Opened(st, body).(main := Data, checksum := body[0], phase := Arguments);
    assert body[0] in body;
    assert Step(st0, body[0]) == (st1, []);
    SumFront(body);
    assert Filled(st1, body[1..]) == Filled(Opened(st, body), body[1..]);
  }

  /** The command a packet runs, with the argument text it then finds. */
  ghost function Outcome(st: Stub, body: seq<byte>): Event
    requires CanRun(st, body)
  {
    var st1 := AfterBody(st, body);
    Callback(st1.current.value, BufferOf(st1, st1.current.value).text)
  }

  /** The two characters behind a packet decode to the checksum. */
  predicate Confirms(d1: byte, d2: byte, checksum: byte) {
    FromHex(d1) == checksum / 16 && FromHex(d2) == checksum % 16
  }

  /** A packet is acknowledged and runs exactly one command if the two characters at its end
      decode to the sum of its body; otherwise it is rejected and runs none. Either way the stub is
      between packets again. After a wrong first one the second is already read between packets,
      where a dollar and CTRL-C mean something. */
  lemma {:induction false} PacketOutcome(st: Stub, body: seq<byte>, d1: byte, d2: byte)
    requires st.main == Junk && !st.dead && HASH !in body && CanRun(st, body)
    requires d2 != DOLLAR && d2 != CTRL_C
    ensures var (st', events) := Run(st, [DOLLAR] + body + [HASH, d1, d2]);
            && st'.main == Junk && !st'.dead
            && if Confirms(d1, d2, Sum(body)) then
                 && events == [Ack, Outcome(st, body)] + (if st.attached then [] else [Stop])
                 && st'.phase == Command && st'.current == Some(0)
                 && st'.attached == (!st.attached || AfterBody(st, body).current != Some(DETACH))
                 && st'.buffers == AfterBody(st, body).buffers
               else
                 events == [Nack] && st'.(main := Data) == AfterBody(st, body)
  {
    var st1 := AfterBody(st, body);
    BodyRun(st, body);
    RunConcat(st, [DOLLAR] + body, [HASH, d1, d2]);
    DigitsRun(st1, d1, d2);
    assert [] + Run(st1, [HASH, d1, d2]).1 == Run(st1, [HASH, d1, d2]).1;
  }

  /** The end of a packet. */
  lemma {:induction false} DigitsRun(st: Stub, d1: byte, d2: byte)
    requires st.main == Data && !st.dead && d2 != DOLLAR && d2 != CTRL_C
    ensures Run(st, [HASH, d1, d2]) ==
              if Confirms(d1, d2, st.checksum) then Accept(st.(main := Checksum2))
              else (st.(main := Junk), [Nack])
  {
    var s, st1 := [HASH, d1, d2], st.(main := Checksum);
    assert s[1..] == [d1, d2] && [d1, d2][1..] == [d2];
    RunStep(st, s);
    if FromHex(d1) == st.checksum / 16 {
      RunStep(st1, [d1, d2]);
      RunStep(st.(main := Checksum2), [d2]);
    } else {
      assert Step(st1, d1) == (st.(main := Junk), [Nack]);
      RunStep(st.(main := Junk), [d2]);
      assert [Nack] + [] == [Nack];
    }
  }

  /** Before any packet has been accepted, a packet that names no known command does harm exactly
      then: the stub fails for want of a current command. */
  lemma {:induction false} PacketFaults(st: Stub, body: seq<byte>)
    requires st.main == Junk && !st.dead && HASH !in body
    ensures Run(st, Frame(body)).0.dead <==> !CanRun(st, body)
  {
    var (d1, d2) := (HexDigit(Sum(body) / 16), HexDigit(Sum(body) % 16));
    HexDigitDecodes(Sum(body) / 16);
    HexDigitDecodes(Sum(body) % 16);
    if CanRun(st, body) {
      PacketOutcome(st, body, d1, d2);
    } else {
      BodyFaults(st, body, [HASH, d1, d2]);
      assert Frame(body) == [DOLLAR] + body + [HASH, d1, d2];
    }
  }

  lemma {:induction false} DeadRun(st: Stub, s: seq<byte>)
    requires st.dead
    ensures Run(st, s) == (st, [])
    decreases |s|
  {
    if s != [] {
      RunStep(st, s);
      DeadRun(st, s[1..]);
    }
  }

  lemma {:induction false} BodyFaults(st: Stub, body: seq<byte>, rest: seq<byte>)
    requires st.main == Junk && !st.dead && HASH !in body && !CanRun(st, body)
    requires rest == [HASH, HexDigit(Sum(body) / 16), HexDigit(Sum(body) % 16)]
    ensures Run(st, [DOLLAR] + body + rest).0.dead
  {
    hide Run, FromHex, HexDigit, Sum;
    var st0 := st.(checksum := 0, main := Data);
    var s := [DOLLAR] + body + rest;
    assert s[1..] == body + rest;
    RunStep(st, s);
    SumEmpty();
    if st.phase == Command && body != [] {
      var st1 := st0.(checksum := body[0], phase := Arguments);
      assert body[0] in body && forall ch <- body[1..] :: ch in body;
      assert (body + rest)[1..] == body[1..] + rest;
      SumFront(body);
      RunStep(st0, body + rest);
      ArgumentsFault(st1, body[1..], rest);
    } else {
      ArgumentsFault(st0, body, rest);
    }
  }

  lemma {:induction false} ArgumentsFault(st: Stub, args: seq<byte>, rest: seq<byte>)
    requires st.main == Data && !st.dead && st.current.None? && HASH !in args
    requires args == [] || st.phase == Arguments
    requires args == [] ==> rest == [HASH, HexDigit(st.checksum / 16), HexDigit(st.checksum % 16)]
    ensures Run(st, args + rest).0.dead
  {
    if args == [] {
      HexDigitDecodes(st.checksum / 16);
      HexDigitDecodes(st.checksum % 16);
      assert args + rest == rest;
      DigitsRun(st, rest[1], rest[2]);
    } else {
      assert args[0] in args;
      DeadRun(Step(st, args[0]).0, (args + rest)[1..]);
    }
  }

  // ---- Sender ----

  /** kdb_sendPacket. */
  function Frame(body: seq<byte>): seq<byte> {
    [DOLLAR] + body + [HASH, HexDigit(Sum(body) / 16), HexDigit(Sum(body) % 16)]
  }

  lemma {:induction false} SumSnoc(s: seq<byte>, ch: byte)
    ensures Sum(s + [ch]) == (Sum(s) + ch) % 256
  {
    if s == [] {
      assert [ch][1..] == [];
    } else {
      assert (s + [ch])[1..] == s[1..] + [ch];
      SumSnoc(s[1..], ch);
      SumModulo(s[0], Sum(s[1..]), ch);
    }
  }

  /** The sender with its running checksum; out is what has gone to the serial line. */
  class Sender {
    var checksum: byte
    var out: seq<byte>

    constructor ()
      ensures checksum == 0 && out == []
    {
      checksum, out := 0, [];
    }

    method BeginPacket()
      modifies this
      ensures checksum == 0 && out == old(out) + [DOLLAR]
    {
      out := out + [DOLLAR];
      checksum := 0;
    }

    method PutChar(ch: byte)
      modifies this
      ensures checksum == (old(checksum) + ch) % 256 && out == old(out) + [ch]
    {
      checksum := (checksum + ch) % 256;
      out := out + [ch];
    }

    method PutStr(str: seq<byte>)
      modifies this
      ensures checksum == (old(checksum) + Sum(str)) % 256 && out == old(out) + str
    {
      var i := 0;
      while i < |str|
        invariant 0 <= i <= |str|
        invariant checksum == (old(checksum) + Sum(str[..i])) % 256 && out == old(out) + str[..i]
      {
        assert str[..i + 1] == str[..i] + [str[i]];
        SumSnoc(str[..i], str[i]);
        SumModulo(old(checksum), Sum(str[..i]), str[i]);
        PutChar(str[i]);
        i := i + 1;
      }
      assert str[..|str|] == str;
    }

    method EndPacket()
      modifies this
      ensures checksum == old(checksum)
      ensures out == old(out) + [HASH, HexDigit(checksum / 16), HexDigit(checksum % 16)]
    {
      out := out + [HASH];
      out := out + [HexDigit(checksum / 16)];
      out := out + [HexDigit(checksum % 16)];
    }

    method SendPacket(str: seq<byte>)
      modifies this
      ensures out == old(out) + Frame(str)
    {
      hide Sum, HexDigit;
      BeginPacket();
      PutStr(str);
      assert checksum == Sum(str);
      EndPacket();
    }
  }

  // ---- Conversations ----

  /** Between packets, with the command for everything unknown as the current one; any accepted
      packet leaves the stub like this. */
  ghost predicate Ready(st: Stub) {
    st.main == Junk && !st.dead && st.phase == Command && st.current == Some(0)
  }

  /** Between packets, at the start of the command machine: ready, or still as booted, and then the
      packet has to name a command. */
  ghost predicate Awaits(st: Stub, body: seq<byte>) {
    && st.main == Junk && !st.dead && st.phase == Command
    && (st.current == Some(0) || (body != [] && Known(body[0])))
  }

  /** The command that a packet names. */
  function Named(body: seq<byte>): byte {
    if body != [] && Known(body[0]) then body[0] else 0
  }

  /** A packet from kdb_sendPacket is accepted and runs the command it names; the argument text is
      the rest of the body, the last block of it if it does not fit, and what an earlier packet
      left for that command if there is no rest. */
  lemma {:induction false} FrameAccepted(st: Stub, body: seq<byte>)
    requires Awaits(st, body) && HASH !in body
    ensures Ready(Run(st, Frame(body)).0)
    ensures exists args: seq<byte> ::
              Run(st, Frame(body)).1 == [Ack, Callback(Named(body), args)] + Joined(st)
              && (|body| > 1 && Known(body[0]) ==> args == LastBlock(body[1..]))
              && (|body| == 1 && Known(body[0]) ==> args == BufferOf(st, body[0]).text)
  {
    HexDigitDecodes(Sum(body) / 16);
    HexDigitDecodes(Sum(body) % 16);
    PacketOutcome(st, body, HexDigit(Sum(body) / 16), HexDigit(Sum(body) % 16));
    var args := Outcome(st, body).args;
    if |body| > 1 && Known(body[0]) {
      NamedText(Buffer(BufferOf(st, body[0]).text, 0), body[1..]);
    }
    assert Outcome(st, body) == Callback(Named(body), args);
  }

  /** An accepted packet of a debugger that was not attached stops the kernel. */
  function Joined(st: Stub): seq<Event> {
    if st.attached then [] else [Stop]
  }

  lemma {:induction false} NamedText(b: Buffer, s: seq<byte>)
    requires s != [] && b.pos == 0
    ensures ExtendAll(b, s).text == LastBlock(s)
  {
    ExtendAllText(Buffer([], 0), s);
    assert Extend(b, s[0]) == Extend(Buffer([], 0), s[0]);
    assert [] + s == s;
  }

  // ---- Any state between packets ----

  /** In every reachable state the positions lie in the buffers. */
  ghost predicate Sound(st: Stub) {
    forall name <- st.buffers :: SoundBuffer(st.buffers[name])
  }

  lemma {:induction false} RunSound(st: Stub, s: seq<byte>)
    requires Sound(st)
    ensures Sound(Run(st, s).0)
    decreases |s|
  {
    if s != [] {
      StepSound(st, s[0]);
      RunSound(Step(st, s[0]).0, s[1..]);
    }
  }

  lemma {:induction false} StepSound(st: Stub, ch: byte)
    requires Sound(st)
    ensures Sound(Step(st, ch).0)
  {
    if !st.dead && st.main == Data && ch != HASH {
      var name := if st.phase == Command then ch else if st.current.Some? then st.current.value else 0;
      assert SoundBuffer(BufferOf(st, name));
      assert SoundBuffer(Extend(BufferOf(st, name), ch)) && SoundBuffer(Buffer(BufferOf(st, name).text, 0));
    }
  }

  /** The packet finds the command machine at its start; or it finds arguments of the same command
      that fill the buffer up to its last place, so that the name takes the last place and the
      arguments start over. A command without arguments must not find any of an earlier packet. */
  predicate WillBeRight(st: Stub, body: seq<byte>)
    requires body != []
  {
    if |body| == 1 then st.phase == Command && BufferOf(st, body[0]).text == []
    else
      && |body| <= 1 + BUFFER_SIZE
      && (st.phase == Command ||
          (st.current == Some(body[0]) && BufferOf(st, body[0]).pos == BUFFER_SIZE - 1))
  }

  /** A correct packet is acknowledged in every state between packets in which there is a command to
      run, as booted included, but it runs the command that it names with the arguments that it
      has exactly under that condition. After a rejected packet the machine is not at its start. */
  lemma {:induction false} FrameRightIff(st: Stub, body: seq<byte>)
    requires st.main == Junk && !st.dead && CanRun(st, body) && Sound(st)
    requires body != [] && Known(body[0]) && HASH !in body
    ensures Run(st, Frame(body)).1 == [Ack, Outcome(st, body)] + Joined(st)
    ensures Run(st, Frame(body)).1 == [Ack, Callback(body[0], body[1..])] + Joined(st) <==> WillBeRight(st, body)
  {
    hide Run, Step, FromHex, HexDigit, Sum;
    HexDigitDecodes(Sum(body) / 16);
    HexDigitDecodes(Sum(body) % 16);
    PacketOutcome(st, body, HexDigit(Sum(body) / 16), HexDigit(Sum(body) % 16));
    OutcomeRightIff(st, body);
    var a, b := Outcome(st, body), Callback(body[0], body[1..]);
    assert ([Ack, a] + Joined(st))[1] == a && ([Ack, b] + Joined(st))[1] == b;
  }

  lemma {:induction false} OutcomeRightIff(st: Stub, body: seq<byte>)
    requires CanRun(st, body) && Sound(st) && body != [] && Known(body[0])
    ensures Outcome(st, body) == Callback(body[0], body[1..]) <==> WillBeRight(st, body)
  {
    hide Known;
    if st.phase == Command {
      var b := Buffer(BufferOf(st, body[0]).text, 0);
      if |body| > 1 {
        NamedText(b, body[1..]);
        assert Outcome(st, body) == Callback(body[0], LastBlock(body[1..]));
      } else {
        assert Outcome(st, body) == Callback(body[0], b.text) && body[1..] == [];
      }
    } else {
      var b := BufferOf(st, st.current.value);
      ExtendAllText(b, body);
      assert Outcome(st, body) == Callback(st.current.value, LastBlock(b.text[..b.pos] + body));
      StartsOver(b.text[..b.pos], body);
    }
  }

  lemma {:induction false} StartsOver(before: seq<byte>, body: seq<byte>)
    requires |before| < BUFFER_SIZE && body != []
    ensures LastBlock(before + body) == body[1..] <==>
              1 < |body| <= 1 + BUFFER_SIZE && |before| == BUFFER_SIZE - 1
  {
    var n := |before| + |body|;
    var k := 1 + (n - 1) % BUFFER_SIZE;
    assert |LastBlock(before + body)| == k;
    if k == |body| - 1 {
      assert (n - 1) % BUFFER_SIZE == |body| - 2 && n - 1 - (|body| - 2) == |before| + 1;
      ModSame(n - 1, |before| + 1);
      assert |before| + 1 == BUFFER_SIZE;
    }
    if 1 < |body| <= 1 + BUFFER_SIZE && |before| == BUFFER_SIZE - 1 {
      assert n - 1 == BUFFER_SIZE + (|body| - 2);
      assert (before + body)[n - k..] == body[1..];
    }
  }

  lemma ModSame(a: nat, d: nat)
    requires 0 < d <= BUFFER_SIZE && d <= a && a % BUFFER_SIZE == a - d
    ensures d == BUFFER_SIZE
  {
  }

  // ---- Runs of packets ----

  /** Packets with other text before each of them and behind the last one. */
  function Session(gaps: seq<seq<byte>>, bodies: seq<seq<byte>>): seq<byte>
    requires |gaps| == |bodies| + 1
  {
    if bodies == [] then gaps[0] else gaps[0] + Frame(bodies[0]) + Session(gaps[1..], bodies[1..])
  }

  /** How often CTRL-C occurs between the packets. */
  function Interrupts(gaps: seq<seq<byte>>): nat {
    if gaps == [] then 0 else multiset(gaps[0])[CTRL_C] + Interrupts(gaps[1..])
  }

  /** The names of the commands run. */
  function NamesRun(events: seq<Event>): seq<byte> {
    if events == [] then []
    else (if events[0].Callback? then [events[0].name] else []) + NamesRun(events[1..])
  }

  function CountOf(events: seq<Event>, e: Event): nat {
    if events == [] then 0 else (if events[0] == e then 1 else 0) + CountOf(events[1..], e)
  }

  lemma {:induction false} EventsConcat(a: seq<Event>, b: seq<Event>)
    ensures NamesRun(a + b) == NamesRun(a) + NamesRun(b)
    ensures forall e :: CountOf(a + b, e) == CountOf(a, e) + CountOf(b, e)
  {
    NamesConcat(a, b);
    forall e ensures CountOf(a + b, e) == CountOf(a, e) + CountOf(b, e) {
      CountConcat(a, b, e);
    }
  }

  lemma {:induction false} NamesConcat(a: seq<Event>, b: seq<Event>)
    ensures NamesRun(a + b) == NamesRun(a) + NamesRun(b)
  {
    if a == [] {
      assert a + b == b;
    } else {
      assert (a + b)[1..] == a[1..] + b;
      NamesConcat(a[1..], b);
    }
  }

  lemma {:induction false} CountConcat(a: seq<Event>, b: seq<Event>, e: Event)
    ensures CountOf(a + b, e) == CountOf(a, e) + CountOf(b, e)
  {
    if a == [] {
      assert a + b == b;
    } else {
      assert (a + b)[1..] == a[1..] + b;
      CountConcat(a[1..], b, e);
    }
  }

  function NamedAll(bodies: seq<seq<byte>>): seq<byte> {
    if bodies == [] then [] else [Named(bodies[0])] + NamedAll(bodies[1..])
  }

  function Attentions(n: nat): seq<Event> {
    seq(n, _ => Attention)
  }

  /** Between packets the stub does not change, and does nothing but react to each CTRL-C, whatever
      comes before the next dollar. */
  lemma {:induction false} IdleRun(st: Stub, s: seq<byte>)
    requires st.main == Junk && !st.dead && DOLLAR !in s
    ensures Run(st, s).0 == st
    ensures Run(st, s).1 == Attentions(multiset(s)[CTRL_C])
    decreases |s|
  {
    if s != [] {
      assert s[0] in s && forall ch <- s[1..] :: ch in s;
      assert s == [s[0]] + s[1..];
      IdleRun(st, s[1..]);
      var rest := Attentions(multiset(s[1..])[CTRL_C]);
      assert Step(st, s[0]) == (st, if s[0] == CTRL_C then [Attention] else []);
      assert Run(st, s).1 == Step(st, s[0]).1 + rest;
      assert multiset(s)[CTRL_C] == multiset(s[1..])[CTRL_C] + if s[0] == CTRL_C then 1 else 0;
    }
  }

  lemma {:induction false} AttentionEvents(n: nat)
    ensures NamesRun(Attentions(n)) == []
    ensures forall e :: CountOf(Attentions(n), e) == if e == Attention then n else 0
  {
    if n > 0 {
      assert Attentions(n)[1..] == Attentions(n - 1);
      AttentionEvents(n - 1);
    }
  }

  /** What is seen of a run of packets: the commands run, in order, one acknowledgement each, no
      rejection, and one reaction to each CTRL-C. */
  ghost predicate GoesThrough(events: seq<Event>, gaps: seq<seq<byte>>, bodies: seq<seq<byte>>) {
    && NamesRun(events) == NamedAll(bodies)
    && CountOf(events, Ack) == |bodies| && CountOf(events, Nack) == 0
    && CountOf(events, Attention) == Interrupts(gaps)
  }

  /** Along any sequence of packets, with any text without a dollar between them, every packet is
      acknowledged, none is rejected, and the commands run are those named, in order; also from the
      state as booted, if the first packet names a command. */
  lemma {:induction false} FramesAccepted(st: Stub, gaps: seq<seq<byte>>, bodies: seq<seq<byte>>)
    requires |gaps| == |bodies| + 1 && forall gap <- gaps :: DOLLAR !in gap
    requires (if bodies == [] then Ready(st) else Awaits(st, bodies[0])) && forall body <- bodies :: HASH !in body
    ensures Ready(Run(st, Session(gaps, bodies)).0)
    ensures GoesThrough(Run(st, Session(gaps, bodies)).1, gaps, bodies)
    decreases |bodies|
  {
    if bodies == [] {
      IdleGoesThrough(st, gaps);
    } else {
      var body := bodies[0];
      assert body in bodies && forall b <- bodies[1..] :: b in bodies;
      assert forall g <- gaps[1..] :: g in gaps;
      FrameAccepted(st, body);
      var (st1, e1) := Run(st, Frame(body));
      FramesAccepted(st1, gaps[1..], bodies[1..]);
      SessionRun(st, gaps, bodies);
      OneFrameEvents(st, e1, body);
      GoesOn(gaps, bodies, e1, Run(st1, Session(gaps[1..], bodies[1..])).1);
    }
  }

  lemma {:induction false} IdleGoesThrough(st: Stub, gaps: seq<seq<byte>>)
    requires |gaps| == 1 && DOLLAR !in gaps[0] && st.main == Junk && !st.dead
    ensures Run(st, Session(gaps, [])).0 == st && GoesThrough(Run(st, Session(gaps, [])).1, gaps, [])
  {
    hide Run;
    IdleRun(st, gaps[0]);
    AttentionEvents(multiset(gaps[0])[CTRL_C]);
    assert gaps[1..] == [] && Interrupts(gaps[1..]) == 0;
  }

  lemma {:induction false} SessionRun(st: Stub, gaps: seq<seq<byte>>, bodies: seq<seq<byte>>)
    requires |gaps| == |bodies| + 1 && bodies != [] && DOLLAR !in gaps[0] && st.main == Junk && !st.dead
    ensures var (st1, e1) := Run(st, Frame(bodies[0]));
            var (st2, e2) := Run(st1, Session(gaps[1..], bodies[1..]));
            Run(st, Session(gaps, bodies)) == (st2, Attentions(multiset(gaps[0])[CTRL_C]) + e1 + e2)
  {
    hide Step, Frame;
    IdleRun(st, gaps[0]);
    RunConcat(st, gaps[0], Frame(bodies[0]));
    RunConcat(st, gaps[0] + Frame(bodies[0]), Session(gaps[1..], bodies[1..]));
  }

  lemma {:induction false} GoesOn(gaps: seq<seq<byte>>, bodies: seq<seq<byte>>, e1: seq<Event>, e2: seq<Event>)
    requires gaps != [] && bodies != [] && GoesThrough(e2, gaps[1..], bodies[1..])
    requires NamesRun(e1) == [Named(bodies[0])] && CountOf(e1, Ack) == 1
    requires CountOf(e1, Nack) == 0 && CountOf(e1, Attention) == 0
    ensures GoesThrough(Attentions(multiset(gaps[0])[CTRL_C]) + e1 + e2, gaps, bodies)
  {
    hide Named, Attentions, CountOf, NamesRun, NamedAll, Interrupts;
    var e0 := Attentions(multiset(gaps[0])[CTRL_C]);
    AttentionEvents(multiset(gaps[0])[CTRL_C]);
    CountConcat3(e0, e1, e2, Ack);
    CountConcat3(e0, e1, e2, Nack);
    CountConcat3(e0, e1, e2, Attention);
    NamesGoOn(bodies, e0, e1, e2);
    InterruptsStep(gaps);
  }

  lemma {:induction false} NamesGoOn(bodies: seq<seq<byte>>, e0: seq<Event>, e1: seq<Event>, e2: seq<Event>)
    requires bodies != [] && NamesRun(e0) == [] && NamesRun(e1) == [Named(bodies[0])]
    requires NamesRun(e2) == NamedAll(bodies[1..])
    ensures NamesRun(e0 + e1 + e2) == NamedAll(bodies)
  {
    hide Named, NamesRun;
    NamesConcat(e0, e1);
    NamesConcat(e0 + e1, e2);
    assert [] + [Named(bodies[0])] == [Named(bodies[0])];
  }

  lemma {:induction false} InterruptsStep(gaps: seq<seq<byte>>)
    requires gaps != []
    ensures Interrupts(gaps) == multiset(gaps[0])[CTRL_C] + Interrupts(gaps[1..])
  {
  }

  lemma {:induction false} CountConcat3(a: seq<Event>, b: seq<Event>, c: seq<Event>, e: Event)
    ensures CountOf(a + b + c, e) == CountOf(a, e) + CountOf(b, e) + CountOf(c, e)
  {
    CountConcat(a, b, e);
    CountConcat(a + b, c, e);
  }

  /** From the constructor's state on: a run of packets goes through exactly if it is empty or the
      first one names a command; otherwise the stub fails on the first one. */
  lemma {:induction false} SessionIff(gaps: seq<seq<byte>>, bodies: seq<seq<byte>>)
    requires |gaps| == |bodies| + 1 && forall gap <- gaps :: DOLLAR !in gap
    requires forall body <- bodies :: HASH !in body
    ensures !Run(BOOTED, Session(gaps, bodies)).0.dead <==> bodies == [] || (bodies[0] != [] && Known(bodies[0][0]))
    ensures !Run(BOOTED, Session(gaps, bodies)).0.dead ==>
              GoesThrough(Run(BOOTED, Session(gaps, bodies)).1, gaps, bodies)
  {
    var gap := gaps[0];
    IdleRun(BOOTED, gap);
    if bodies == [] {
      IdleGoesThrough(BOOTED, gaps);
    } else {
      var body := bodies[0];
      assert body in bodies;
      if body != [] && Known(body[0]) {
        FramesAccepted(BOOTED, gaps, bodies);
      } else {
        PacketFaults(BOOTED, body);
        RunConcat(BOOTED, gap, Frame(body));
        RunConcat(BOOTED, gap + Frame(body), Session(gaps[1..], bodies[1..]));
        DeadRun(Run(BOOTED, Frame(body)).0, Session(gaps[1..], bodies[1..]));
      }
    }
  }

  lemma {:induction false} OneFrameEvents(st: Stub, events: seq<Event>, body: seq<byte>)
    requires exists args: seq<byte> :: events == [Ack, Callback(Named(body), args)] + Joined(st)
    ensures NamesRun(events) == [Named(body)] && CountOf(events, Ack) == 1 && CountOf(events, Nack) == 0
    ensures CountOf(events, Attention) == 0
  {
    var args: seq<byte> :| events == [Ack, Callback(Named(body), args)] + Joined(st);
    var a, b := [Ack], [Callback(Named(body), args)];
    assert events == a + (b + Joined(st));
    EventsConcat(a, b + Joined(st));
    EventsConcat(b, Joined(st));
    OneEvent(Ack);
    OneEvent(b[0]);
    JoinedEvents(st);
  }

  lemma {:induction false} OneEvent(e: Event)
    ensures NamesRun([e]) == if e.Callback? then [e.name] else []
    ensures forall f :: CountOf([e], f) == if e == f then 1 else 0
  {
    assert [e][1..] == [];
  }

  lemma {:induction false} JoinedEvents(st: Stub)
    ensures NamesRun(Joined(st)) == [] && CountOf(Joined(st), Ack) == 0 && CountOf(Joined(st), Nack) == 0
    ensures CountOf(Joined(st), Attention) == 0
  {
    if !st.attached {
      OneEvent(Stop);
    }
  }

  /** A rejected packet leaves its command half read: sent again, correctly this time, it is
      acknowledged, but the command runs with both copies as its arguments. */
  lemma {:induction false} ResendAppends(st: Stub, body: seq<byte>, d1: byte, d2: byte)
    requires Ready(st) && HASH !in body && body != [] && Known(body[0])
    requires !Confirms(d1, d2, Sum(body)) && d2 != DOLLAR && d2 != CTRL_C
    ensures var (st1, e1) := Run(st, [DOLLAR] + body + [HASH, d1, d2]);
            var (st2, e2) := Run(st1, Frame(body));
            && e1 == [Nack]
            && e2 == [Ack, Callback(body[0], LastBlock(body[1..] + body))] + Joined(st)
            && Ready(st2)
  {
    hide Run, Step, FromHex, HexDigit, Sum;
    PacketOutcome(st, body, d1, d2);
    var st1 := Run(st, [DOLLAR] + body + [HASH, d1, d2]).0;
    HexDigitDecodes(Sum(body) / 16);
    HexDigitDecodes(Sum(body) % 16);
    PacketOutcome(st1, body, HexDigit(Sum(body) / 16), HexDigit(Sum(body) % 16));
    var b := Buffer(BufferOf(st, body[0]).text, 0);
    assert BufferOf(st1, body[0]) == ExtendAll(b, body[1..]);
    ExtendAllConcat(b, body[1..], body);
    NamedText(b, body[1..] + body);
  }
}

/**
 * CDCCommandStream.cpp: the framer that turns USB CDC packets into
 * commands, and the ring of packet buffers between the USB receive
 * interrupt and the main loop.
 *
 * A command is a four-byte header, then a four-byte command word (a
 * FourCC, stored little-endian into a uint32_t), then data for the
 * handler registered for that word. Stream(data, len) consumes one packet;
 * its progress through the header and the command word persists in the
 * object between packets.
 *
 * The handlers are foreign code: what StreamInit and StreamData would
 * answer is passed in (`init`, `result`), a handler is known by a
 * number, and the bytes given to the handler's data stream are recorded
 * as the `(start, count)` of the AddData call. The header bytes and the
 * number of FIFO buffers come from CDCCommandStream.h, which is not part
 * of this model; they are parameters of the constructor.
 */
module CommandStream {
  import opened Pixels
  import opened Words
  import opened Wrappers

  datatype State = Detect | DetectCommandWord | Dispatch | Processing

  datatype StreamResult = Error | Finish | NeedData | Continue

  /** A registered handler object, known by its identity. */
  type HandlerId = nat

  /** The uint32_t command word with all four bytes 0. */
  const NoCommand := Word(0, 0, 0, 0)

  /** Writing byte k of the little-endian command word (lines 115 and 136). */
  function SetByte(w: Word, k: nat, x: byte): (r: Word)
    requires k < 4
    ensures ByteOf(r, k) == x
    ensures forall j :: 0 <= j < 4 && j != k ==> ByteOf(r, j) == ByteOf(w, j)
  {
    if k == 0 then w.(b0 := x) else if k == 1 then w.(b1 := x) else if k == 2 then w.(b2 := x) else w.(b3 := x)
  }

  // ---------------------------------------------------------------------
  // The handler map

  /** `m_commandHandlers[uCommand]` read as a value: the handler registered
      for the word, or null when there is none. */
  function Lookup(handlers: map<Word, Option<HandlerId>>, cmd: Word): Option<HandlerId>
  {
    if cmd in handlers then handlers[cmd] else None
  }

  /** The map after `m_commandHandlers[uCommand]`: operator[] inserts a null
      entry for a word it has not seen. */
  function Touch(handlers: map<Word, Option<HandlerId>>, cmd: Word): map<Word, Option<HandlerId>>
  {
    if cmd in handlers then handlers else handlers[cmd := None]
  }

  /** Registering a handler makes it the one dispatched for its word and
      leaves every other word's handler as it was; looking a word up only
      ever adds a null entry, which changes no lookup. */
  lemma LookupAfterRegister(handlers: map<Word, Option<HandlerId>>, cmd: Word, h: Option<HandlerId>, other: Word)
    ensures Lookup(handlers[cmd := h], cmd) == h
    ensures other != cmd ==> Lookup(handlers[cmd := h], other) == Lookup(handlers, other)
    ensures Lookup(Touch(handlers, cmd), other) == Lookup(handlers, other)
  {
  }

  // ---------------------------------------------------------------------
  // The header scan (lines 85-108)

  /** Where a header scan stopped: whether the header was completed, the
      index after the last byte scanned, and the header and command
      positions it leaves behind. */
  datatype Scan = Scan(found: bool, next: nat, headerPos: nat, commandPos: nat)

  /** The header scan over data[i..] from header position hpos: a byte equal
      to the expected header byte advances the position, the fourth match
      completes the header, any other byte sends the position back to 0
      (and the command position with it) without being compared again. */
  function ScanHeader(header: seq<byte>, data: seq<byte>, i: nat, hpos: nat, cpos: nat): (r: Scan)
    requires |header| == 4 && hpos < 4 && i <= |data|
    ensures r.headerPos < 4 && i <= r.next <= |data|
    ensures r.found ==> r.headerPos == 0 && r.commandPos == 0 && i < r.next
    ensures !r.found ==> r.next == |data| && (r.commandPos == 0 || r.commandPos == cpos)
    decreases |data| - i
  {
    if i == |data| then Scan(false, i, hpos, cpos)
    else if data[i] == header[hpos] then
      if hpos == 3 then Scan(true, i + 1, 0, 0)
      else ScanHeader(header, data, i + 1, hpos + 1, cpos)
    else ScanHeader(header, data, i + 1, 0, 0)
  }

  /** A completed header is really there: when the scan starts with the
      first hpos header bytes just behind position i, the four bytes before
      the point where it reports the header are the header. When it does
      not complete one, the bytes at the end of the data are the start of
      the header it is waiting to finish. */
  lemma {:induction false} ScanHeaderSound(header: seq<byte>, data: seq<byte>, i: nat, hpos: nat, cpos: nat)
    requires |header| == 4 && hpos < 4 && hpos <= i <= |data|
    requires data[i - hpos..i] == header[..hpos]
    ensures var r := ScanHeader(header, data, i, hpos, cpos);
      (r.found ==> 4 <= r.next && data[r.next - 4..r.next] == header) &&
      (!r.found ==> r.headerPos <= |data| && data[|data| - r.headerPos..] == header[..r.headerPos])
    decreases |data| - i
  {
    if i < |data| {
      if data[i] == header[hpos] {
        assert data[i - hpos..i + 1] == data[i - hpos..i] + [data[i]];
        assert header[..hpos + 1] == header[..hpos] + [header[hpos]];
        if hpos < 3 {
          ScanHeaderSound(header, data, i + 1, hpos + 1, cpos);
        }
      } else {
        ScanHeaderSound(header, data, i + 1, 0, 0);
      }
    }
  }

  /** Progress persists across packets: scanning a + b is scanning a and
      then, from where that left off, scanning b (as long as a does not
      complete the header). */
  lemma {:induction false} ScanHeaderResumes(header: seq<byte>, a: seq<byte>, b: seq<byte>, i: nat, hpos: nat, cpos: nat)
    requires |header| == 4 && hpos < 4 && i <= |a|
    requires !ScanHeader(header, a, i, hpos, cpos).found
    ensures var ra := ScanHeader(header, a, i, hpos, cpos);
      var rb := ScanHeader(header, b, 0, ra.headerPos, ra.commandPos);
      ScanHeader(header, a + b, i, hpos, cpos) == rb.(next := |a| + rb.next)
    decreases |a| - i
  {
    if i == |a| {
      ShiftScan(header, a, b, 0, hpos, cpos);
    } else {
      assert (a + b)[i] == a[i];
      if a[i] == header[hpos] {
        ScanHeaderResumes(header, a, b, i + 1, hpos + 1, cpos);
      } else {
        ScanHeaderResumes(header, a, b, i + 1, 0, 0);
      }
    }
  }

  /** Scanning b from j, or a + b from |a| + j, is the same scan. */
  lemma {:induction false} ShiftScan(header: seq<byte>, a: seq<byte>, b: seq<byte>, j: nat, hpos: nat, cpos: nat)
    requires |header| == 4 && hpos < 4 && j <= |b|
    ensures var rb := ScanHeader(header, b, j, hpos, cpos);
      ScanHeader(header, a + b, |a| + j, hpos, cpos) == rb.(next := |a| + rb.next)
    decreases |b| - j
  {
    if j < |b| {
      assert (a + b)[|a| + j] == b[j];
      if b[j] == header[hpos] {
        if hpos < 3 {
          ShiftScan(header, a, b, j + 1, hpos + 1, cpos);
        }
      } else {
        ShiftScan(header, a, b, j + 1, 0, 0);
      }
    }
  }

  /** A packet that begins with the header has it recognised after exactly
      its four bytes. */
  lemma HeaderAtStart(header: seq<byte>, rest: seq<byte>, cpos: nat)
    requires |header| == 4
    ensures ScanHeader(header, header + rest, 0, 0, cpos) == Scan(true, 4, 0, 0)
  {
    var d := header + rest;
    assert d[0] == header[0] && d[1] == header[1] && d[2] == header[2] && d[3] == header[3];
    assert ScanHeader(header, d, 3, 3, cpos) == Scan(true, 4, 0, 0);
    assert ScanHeader(header, d, 1, 1, cpos) == ScanHeader(header, d, 3, 3, cpos);
  }

  /** The byte that breaks a partial match is not compared with the first
      header byte again: a header whose first byte repeats at the start of
      the packet is missed. */
  lemma MismatchNotRetested()
    ensures ScanHeader([1, 2, 3, 4], [1, 1, 2, 3, 4], 0, 0, 0).found == false
  {
  }

  // ---------------------------------------------------------------------
  // The command word (lines 110-142)

  /** Where gathering the command word stopped: the new state, the index
      after the last byte read, the command position and the word. */
  datatype Gather = Gather(state: State, next: nat, commandPos: nat, command: Word)

  /** The loop of lines 113-127 as written: the end-of-packet test at line
      116 only stops once the scan position is past the end, so the byte at
      index len, the first one after the packet, is read as a command byte. */
  function GatherAsWritten(mem: seq<byte>, len: nat, i: nat, cpos: nat, cmd: Word): (r: Gather)
    requires len < |mem| && i <= len + 1 && cpos < 4
    ensures r.state == Dispatch ==> r.commandPos == 4 && r.next <= len + 1
    ensures r.state != Dispatch ==> r.state == DetectCommandWord && r.commandPos < 4 && r.next == len + 1
    decreases 4 - cpos
  {
    if i > len then Gather(DetectCommandWord, i, cpos, cmd)
    else
      var cmd' := SetByte(cmd, cpos, mem[i]);
      if cpos == 3 then Gather(Dispatch, i + 1, 4, cmd')
      else GatherAsWritten(mem, len, i + 1, cpos + 1, cmd')
  }

  /** The loop of lines 134-139 as written: the remaining command bytes are
      read from the start of the packet whatever its length, into a word
      that starts at 0 in every call. */
  function FinishAsWritten(mem: seq<byte>, i: nat, cpos: nat, cmd: Word): (r: Gather)
    requires cpos <= 4 && i + (4 - cpos) <= |mem|
    ensures r.state == Dispatch && r.commandPos == 4 && r.next == i + (4 - cpos)
    decreases 4 - cpos
  {
    if cpos == 4 then Gather(Dispatch, i, 4, cmd)
    else FinishAsWritten(mem, i + 1, cpos + 1, SetByte(cmd, cpos, mem[i]))
  }

  /** The corrected gathering: bytes are read only while the packet has
      them, and the word persists between packets, so the part of it
      already read is kept. */
  function GatherFixed(data: seq<byte>, i: nat, cpos: nat, cmd: Word): (r: Gather)
    requires i <= |data| && cpos < 4
    ensures r.state == Dispatch ==> r.commandPos == 4 && r.next <= |data|
    ensures r.state != Dispatch ==> r.state == DetectCommandWord && r.commandPos < 4 && r.next == |data|
    decreases 4 - cpos
  {
    if i == |data| then Gather(DetectCommandWord, i, cpos, cmd)
    else
      var cmd' := SetByte(cmd, cpos, data[i]);
      if cpos == 3 then Gather(Dispatch, i + 1, 4, cmd')
      else GatherFixed(data, i + 1, cpos + 1, cmd')
  }

  /** The corrected gathering resumes: reading a + b is reading a and then,
      from where that stopped, reading b. */
  lemma {:induction false} GatherFixedResumes(a: seq<byte>, b: seq<byte>, i: nat, cpos: nat, cmd: Word)
    requires i <= |a| && cpos < 4
    requires GatherFixed(a, i, cpos, cmd).state != Dispatch
    ensures var ra := GatherFixed(a, i, cpos, cmd);
      var rb := GatherFixed(b, 0, ra.commandPos, ra.command);
      GatherFixed(a + b, i, cpos, cmd) == rb.(next := |a| + rb.next)
    decreases 4 - cpos
  {
    if i == |a| {
      ShiftGather(a, b, 0, cpos, cmd);
    } else {
      assert (a + b)[i] == a[i];
      GatherFixedResumes(a, b, i + 1, cpos + 1, SetByte(cmd, cpos, a[i]));
    }
  }

  /** Gathering from b at j, or from a + b at |a| + j, is the same. */
  lemma {:induction false} ShiftGather(a: seq<byte>, b: seq<byte>, j: nat, cpos: nat, cmd: Word)
    requires j <= |b| && cpos < 4
    ensures var rb := GatherFixed(b, j, cpos, cmd);
      GatherFixed(a + b, |a| + j, cpos, cmd) == rb.(next := |a| + rb.next)
    decreases 4 - cpos
  {
    if j < |b| {
      assert (a + b)[|a| + j] == b[j];
      if cpos < 3 {
        ShiftGather(a, b, j + 1, cpos + 1, SetByte(cmd, cpos, b[j]));
      }
    }
  }

  /** Four bytes gathered in one go make the little-endian command word. */
  lemma {:induction false} GatherFixedWord(data: seq<byte>, i: nat, cmd: Word)
    requires i + 4 <= |data|
    ensures GatherFixed(data, i, 0, cmd) ==
      Gather(Dispatch, i + 4, 4, Word(data[i], data[i + 1], data[i + 2], data[i + 3]))
  {
    var w1 := SetByte(cmd, 0, data[i]);
    var w2 := SetByte(w1, 1, data[i + 1]);
    var w3 := SetByte(w2, 2, data[i + 2]);
    assert GatherFixed(data, i + 3, 3, w3) == Gather(Dispatch, i + 4, 4, SetByte(w3, 3, data[i + 3]));
  }


  // ---------------------------------------------------------------------
  // One packet, as a function of the state

  /** The fields of the state machine. `command` is the word kept between
      packets by the corrected code; the code as written keeps the word in
      a local variable and never reads this field. */
  datatype Machine = Machine(
    state: State,
    headerPos: nat,
    commandPos: nat,
    retries: nat,
    current: Option<HandlerId>,
    handlers: map<Word, Option<HandlerId>>,
    command: Word)

  /** The states the machine can pass through within a packet: a partial
      command word has fewer than four bytes, and processing has a handler
      and at most one NeedData behind it. */
  predicate Settled(m: Machine)
  {
    m.headerPos < 4 && m.commandPos <= 4 &&
    (m.state == DetectCommandWord ==> m.commandPos < 4) &&
    (m.state == Processing ==> m.current.Some? && m.retries <= 1)
  }

  /** The states the machine can be in between packets: those, except that
      Dispatch is only ever passed through. */
  predicate MachineValid(m: Machine)
  {
    Settled(m) && m.state != Dispatch
  }

  /** The machine after the header and command phases of one packet, and
      the index of the first byte they did not consume. */
  datatype Front = Front(state: State, pos: nat, headerPos: nat, commandPos: nat, command: Word)

  /** The machine fields as the header and command phases leave them. */
  function Entered(m: Machine, f: Front): Machine
  {
    m.(state := f.state, headerPos := f.headerPos, commandPos := f.commandPos)
  }

  /** The arguments of the AddData call at line 166: the index of the first
      byte handed on and the uint32_t count of the rest of the packet. */
  datatype Added = Added(start: nat, count: u32)

  /** The effect of one packet: the new machine, the command word looked up
      in the handler map (if one was) and the AddData call (if one was made). */
  datatype Outcome = Outcome(m: Machine, dispatched: Option<Word>, added: Option<Added>)

  /** Lines 85-142 as written. `mem` is the packet buffer, of which the
      first len bytes are the packet. */
  function FrontAsWritten(header: seq<byte>, m: Machine, mem: seq<byte>, len: nat): (f: Front)
    requires |header| == 4 && MachineValid(m) && len < |mem| && 4 <= |mem|
    ensures Settled(Entered(m, f))
    ensures f.state == Processing ==> m.state == Processing && f.pos == 0
  {
    if m.state == Detect then
      var sc := ScanHeader(header, mem[..len], 0, m.headerPos, m.commandPos);
      if sc.found then
        var g := GatherAsWritten(mem, len, sc.next, 0, NoCommand);
        Front(g.state, g.next, sc.headerPos, g.commandPos, g.command)
      else Front(Detect, sc.next, sc.headerPos, sc.commandPos, NoCommand)
    else if m.state == DetectCommandWord then
      var g := FinishAsWritten(mem, 0, m.commandPos, NoCommand);
      Front(Dispatch, g.next, m.headerPos, g.commandPos, g.command)
    else Front(m.state, 0, m.headerPos, m.commandPos, NoCommand)
  }

  /** Lines 85-142 corrected: the end test of line 116 stops at the packet
      end, the read in the command-word state is bounded by the packet, and
      the command word persists between packets. */
  function FrontFixed(header: seq<byte>, m: Machine, data: seq<byte>): (f: Front)
    requires |header| == 4 && MachineValid(m)
    ensures Settled(Entered(m, f))
    ensures f.state == Processing ==> m.state == Processing && f.pos == 0
    ensures f.pos <= |data|
  {
    if m.state == Detect then
      var sc := ScanHeader(header, data, 0, m.headerPos, m.commandPos);
      if sc.found then
        var g := GatherFixed(data, sc.next, 0, NoCommand);
        Front(g.state, g.next, sc.headerPos, g.commandPos, g.command)
      else Front(Detect, sc.next, sc.headerPos, sc.commandPos, m.command)
    else if m.state == DetectCommandWord then
      var g := GatherFixed(data, 0, m.commandPos, m.command);
      Front(g.state, g.next, m.headerPos, g.commandPos, g.command)
    else Front(m.state, 0, m.headerPos, m.commandPos, m.command)
  }

  /** The state and retry count after a handler's StreamData answer (lines
      169-193). */
  function AfterResult(result: StreamResult, retries: nat): (r: (State, nat))
    ensures r.0 == Processing <==> result == Continue || (result == NeedData && retries == 0)
    ensures r.0 != Processing ==> r.0 == Detect
    ensures r.1 == retries + (if result == NeedData then 1 else 0)
  {
    match result
    case Error => (Detect, retries)
    case Finish => (Detect, retries)
    case NeedData => if retries + 1 > 1 then (Detect, retries + 1) else (Processing, retries + 1)
    case Continue => (Processing, retries)
  }

  /** The dispatch of lines 144-162: the handler registered for the word
      becomes current (the lookup inserting a null entry for an unknown
      word), and processing starts only when there is one and its
      StreamInit accepts. */
  function Dispatched(m: Machine, cmd: Word, init: bool): Machine
  {
    if m.state == Dispatch then
      var h := Lookup(m.handlers, cmd);
      m.(state := if h.Some? && init then Processing else Detect, retries := 0,
         current := h, handlers := Touch(m.handlers, cmd))
    else m
  }

  /** Lines 144-197 on the machine the header and command phases left:
      dispatch a completed command word, then hand the rest of the packet
      (from index pos of a packet of len bytes) to the handler and act on
      its answer. */
  function Back(m: Machine, cmd: Word, pos: nat, len: nat, init: bool, result: StreamResult): (o: Outcome)
    requires Settled(m)
    ensures MachineValid(o.m)
    ensures o.m.headerPos == m.headerPos && o.m.commandPos == m.commandPos && o.m.command == m.command
    // dispatch
    ensures m.state == Dispatch ==>
      o.dispatched == Some(cmd) && o.m.current == Lookup(m.handlers, cmd) && o.m.handlers == Touch(m.handlers, cmd)
    ensures m.state != Dispatch ==> o.dispatched.None? && o.m.current == m.current && o.m.handlers == m.handlers
    // the handler gets the rest of the packet exactly when one is processing
    ensures o.added.Some? <==>
      m.state == Processing || (m.state == Dispatch && Lookup(m.handlers, cmd).Some? && init)
    ensures o.added.Some? ==> o.added.value == Added(pos, Wrap32(len - pos))
    // outcome of processing
    ensures o.added.Some? ==>
      var before := if m.state == Dispatch then 0 else m.retries;
      (o.m.state == Processing <==> result == Continue || (result == NeedData && before == 0)) &&
      (o.m.state != Processing ==> o.m.state == Detect)
    ensures o.added.None? ==> o.m.state == (if m.state == Dispatch then Detect else m.state)
  {
    var d := Dispatched(m, cmd, init);
    var dispatched := if m.state == Dispatch then Some(cmd) else None;
    if d.state == Processing then
      var r := AfterResult(result, d.retries);
      Outcome(d.(state := r.0, retries := r.1), dispatched, Some(Added(pos, Wrap32(len - pos))))
    else Outcome(d, dispatched, None)
  }

  /** One packet as written. */
  function StepAsWritten(header: seq<byte>, m: Machine, mem: seq<byte>, len: nat, init: bool, result: StreamResult): (o: Outcome)
    requires |header| == 4 && MachineValid(m) && len < |mem| && 4 <= |mem|
    ensures MachineValid(o.m) && o.m.command == m.command
  {
    var f := FrontAsWritten(header, m, mem, len);
    Back(Entered(m, f), f.command, f.pos, len, init, result)
  }

  /** One packet, corrected: the handler is never handed more bytes than
      the packet has left. */
  function StepFixed(header: seq<byte>, m: Machine, data: seq<byte>, init: bool, result: StreamResult): (o: Outcome)
    requires |header| == 4 && MachineValid(m)
    ensures MachineValid(o.m)
    ensures o.added.Some? ==> o.added.value.start <= |data|
    ensures o.added.Some? && |data| < 0x1_0000_0000 ==> o.added.value.start + o.added.value.count == |data|
  {
    var f := FrontFixed(header, m, data);
    Back(Entered(m, f).(command := f.command), f.command, f.pos, |data|, init, result)
  }

  /** While processing, the whole packet goes to the handler, nothing is
      dispatched, and the machine stays in Processing exactly while the
      handler continues or asks for more data for the first time. */
  lemma {:induction false} ProcessingStep(header: seq<byte>, m: Machine, data: seq<byte>, init: bool, result: StreamResult)
    requires |header| == 4 && MachineValid(m) && m.state == Processing
    ensures var o := StepFixed(header, m, data, init, result);
      o.dispatched.None? && o.added == Some(Added(0, Wrap32(|data|))) &&
      (o.m.state == Processing <==> result == Continue || (result == NeedData && m.retries == 0))
  {
    var f := FrontFixed(header, m, data);
    assert f == Front(Processing, 0, m.headerPos, m.commandPos, m.command);
  }

  // ---------------------------------------------------------------------
  // Findings about the code as written

  /** A header that ends a packet: the code as written reads the byte after
      the packet as the first command byte, and in the next packet starts
      a fresh word at 0 for the remaining three, so the word dispatched is
      0, x0, x1, x2 instead of x0, x1, x2, x3, and x3 goes to the handler
      as data. */
  lemma SplitCommandAsWritten(m: Machine, after: byte, x0: byte, x1: byte, x2: byte, x3: byte)
    requires MachineValid(m) && m.state == Detect && m.headerPos == 0
    ensures var o1 := StepAsWritten([1, 2, 3, 4], m, [1, 2, 3, 4, after], 4, true, Continue);
      o1.m.state == DetectCommandWord && o1.m.commandPos == 1 && o1.dispatched.None? &&
      var o2 := StepAsWritten([1, 2, 3, 4], o1.m, [x0, x1, x2, x3], 3, true, Continue);
      o2.dispatched == Some(Word(0, x0, x1, x2))
  {
    var mem := [1, 2, 3, 4, after];
    assert mem[..4] == [1, 2, 3, 4];
    HeaderAtStart([1, 2, 3, 4], [], m.commandPos);
    assert [1, 2, 3, 4] + [] == mem[..4];
  }

  /** The same packets through the corrected code: the header completes at
      the end of the first packet and the next one supplies the whole
      word. */
  lemma SplitCommandFixed(m: Machine, x0: byte, x1: byte, x2: byte, x3: byte)
    requires MachineValid(m) && m.state == Detect && m.headerPos == 0
    ensures var o1 := StepFixed([1, 2, 3, 4], m, [1, 2, 3, 4], true, Continue);
      o1.m.state == DetectCommandWord && o1.m.commandPos == 0 && o1.dispatched.None? &&
      var o2 := StepFixed([1, 2, 3, 4], o1.m, [x0, x1, x2, x3], true, Continue);
      o2.dispatched == Some(Word(x0, x1, x2, x3))
  {
    HeaderAtStart([1, 2, 3, 4], [], m.commandPos);
    assert [1, 2, 3, 4] + [] == [1, 2, 3, 4];
    var o1 := StepFixed([1, 2, 3, 4], m, [1, 2, 3, 4], true, Continue);
    GatherFixedWord([x0, x1, x2, x3], 0, o1.m.command);
  }

  /** A header followed by only three command bytes at the end of a packet:
      the code as written completes the word with the byte after the
      packet, dispatches it, and hands the handler the count
      len - (len + 1), which as a uint32_t is 0xffffffff. */
  lemma ReadPastPacketAsWritten(m: Machine, after: byte)
    requires MachineValid(m) && m.state == Detect && m.headerPos == 0
    requires Lookup(m.handlers, Word(5, 6, 7, after)).Some?
    ensures var o := StepAsWritten([1, 2, 3, 4], m, [1, 2, 3, 4, 5, 6, 7, after], 7, true, Continue);
      o.dispatched == Some(Word(5, 6, 7, after)) && o.added == Some(Added(8, 0xffff_ffff))
  {
    var mem := [1, 2, 3, 4, 5, 6, 7, after];
    HeaderAtStart([1, 2, 3, 4], [5, 6, 7], m.commandPos);
    assert [1, 2, 3, 4] + [5, 6, 7] == mem[..7];
  }

  /** The same packet through the corrected code: the three bytes wait for
      the next packet and nothing is dispatched. */
  lemma ReadPastPacketFixed(m: Machine)
    requires MachineValid(m) && m.state == Detect && m.headerPos == 0
    ensures var o := StepFixed([1, 2, 3, 4], m, [1, 2, 3, 4, 5, 6, 7], true, Continue);
      o.dispatched.None? && o.added.None? && o.m.state == DetectCommandWord && o.m.commandPos == 3 &&
      o.m.command == Word(5, 6, 7, 0)
  {
    HeaderAtStart([1, 2, 3, 4], [5, 6, 7], m.commandPos);
    assert [1, 2, 3, 4] + [5, 6, 7] == [1, 2, 3, 4, 5, 6, 7];
  }

  // ---------------------------------------------------------------------
  // The packet FIFO (lines 206-258)

  /** Slot i places after slot p in a ring of n slots. */
  function RingSlot(p: nat, i: nat, n: nat): (s: nat)
    requires p < n && i < n
    ensures s < n
  {
    if p + i < n then p + i else p + i - n
  }

  /** The packet lengths queued in the ring, oldest first: `used` slots
      from the read position on. */
  function Queued(lens: seq<byte>, readPos: nat, used: nat): (q: seq<byte>)
    requires readPos < |lens| && used <= |lens|
    ensures |q| == used
    ensures forall i :: 0 <= i < used ==> q[i] == lens[RingSlot(readPos, i, |lens|)]
  {
    seq(used, i requires 0 <= i < used => lens[RingSlot(readPos, i, |lens|)])
  }

  /** Recording a length in the slot after the queue appends it to the
      queue. */
  lemma QueuedPush(lens: seq<byte>, readPos: nat, used: nat, x: byte)
    requires readPos < |lens| && used < |lens|
    ensures Queued(lens[RingSlot(readPos, used, |lens|) := x], readPos, used + 1) == Queued(lens, readPos, used) + [x]
  {
    var lens' := lens[RingSlot(readPos, used, |lens|) := x];
    var q := Queued(lens', readPos, used + 1);
    var p := Queued(lens, readPos, used);
    forall i | 0 <= i < used
      ensures q[i] == p[i]
    {
      assert RingSlot(readPos, i, |lens|) != RingSlot(readPos, used, |lens|);
    }
    assert q == p + [x];
  }

  /** Advancing the read position drops the oldest length from the
      queue. */
  lemma QueuedPop(lens: seq<byte>, readPos: nat, used: nat, next: nat)
    requires readPos < |lens| && 1 <= used <= |lens|
    requires next == (if readPos + 1 == |lens| then 0 else readPos + 1)
    ensures Queued(lens, next, used - 1) == Queued(lens, readPos, used)[1..]
  {
    var q := Queued(lens, readPos, used);
    var p := Queued(lens, next, used - 1);
    forall i | 0 <= i < used - 1
      ensures p[i] == q[i + 1]
    {
      assert RingSlot(next, i, |lens|) == RingSlot(readPos, i + 1, |lens|);
    }
    assert p == q[1..];
  }

  // ---------------------------------------------------------------------
  // The loops of Stream(data, len), on local variables

  /** The header scan loop (lines 87-108). */
  method ScanLoop(header: seq<byte>, data: seq<byte>, hpos0: nat, cpos0: nat)
    returns (found: bool, next: nat, hpos: nat, cpos: nat)
    requires |header| == 4 && hpos0 < 4
    ensures Scan(found, next, hpos, cpos) == ScanHeader(header, data, 0, hpos0, cpos0)
  {
    found, next, hpos, cpos := false, 0, hpos0, cpos0;
    while !found && next < |data|
      invariant next <= |data| && hpos < 4
      invariant !found ==> ScanHeader(header, data, next, hpos, cpos) == ScanHeader(header, data, 0, hpos0, cpos0)
      invariant found ==> Scan(true, next, hpos, cpos) == ScanHeader(header, data, 0, hpos0, cpos0)
      decreases |data| - next
    {
      if data[next] == header[hpos] {
        if hpos == 3 {
          found, hpos, cpos := true, 0, 0;
        } else {
          hpos := hpos + 1;
        }
      } else {
        hpos, cpos := 0, 0;
      }
      next := next + 1;
    }
  }

  /** The command-word loop after a header (lines 113-127) as written: it
      stops only once the scan position is past index len. */
  method GatherLoopAsWritten(mem: seq<byte>, len: nat, i: nat, cmd: Word)
    returns (st: State, next: nat, cpos: nat, w: Word)
    requires len < |mem| && i <= len + 1
    ensures Gather(st, next, cpos, w) == GatherAsWritten(mem, len, i, 0, cmd)
  {
    st, next, cpos, w := Detect, i, 0, cmd;
    while st == Detect && cpos < 4
      invariant next <= len + 1 && cpos <= 4
      invariant st == Detect ==> cpos < 4 && GatherAsWritten(mem, len, next, cpos, w) == GatherAsWritten(mem, len, i, 0, cmd)
      invariant st != Detect ==> Gather(st, next, cpos, w) == GatherAsWritten(mem, len, i, 0, cmd)
      decreases 4 - cpos + (if st == Detect then 1 else 0)
    {
      if next > len {
        st := DetectCommandWord;
      } else {
        w := SetByte(w, cpos, mem[next]);
        next := next + 1;
        if cpos == 3 {
          st := Dispatch;
        }
        cpos := cpos + 1;
      }
    }
  }

  /** The command-word loop in state stDetectCommandWord (lines 134-139) as
      written: it reads the remaining bytes from the packet start without
      looking at the packet's length. */
  method FinishLoopAsWritten(mem: seq<byte>, cpos0: nat, cmd: Word) returns (next: nat, w: Word)
    requires cpos0 <= 4 && 4 <= |mem|
    ensures Gather(Dispatch, next, 4, w) == FinishAsWritten(mem, 0, cpos0, cmd)
  {
    var cpos := cpos0;
    next, w := 0, cmd;
    while cpos < 4
      invariant cpos0 <= cpos <= 4 && next == cpos - cpos0
      invariant FinishAsWritten(mem, next, cpos, w) == FinishAsWritten(mem, 0, cpos0, cmd)
    {
      w := SetByte(w, cpos, mem[next]);
      next := next + 1;
      cpos := cpos + 1;
    }
  }

  /** The corrected command-word loop: it stops at the end of the packet. */
  method GatherLoopFixed(data: seq<byte>, i: nat, cpos0: nat, cmd: Word)
    returns (st: State, next: nat, cpos: nat, w: Word)
    requires i <= |data| && cpos0 < 4
    ensures Gather(st, next, cpos, w) == GatherFixed(data, i, cpos0, cmd)
  {
    st, next, cpos, w := Detect, i, cpos0, cmd;
    while st == Detect && cpos < 4
      invariant next <= |data| && cpos <= 4
      invariant st == Detect ==> cpos < 4 && GatherFixed(data, next, cpos, w) == GatherFixed(data, i, cpos0, cmd)
      invariant st != Detect ==> Gather(st, next, cpos, w) == GatherFixed(data, i, cpos0, cmd)
      decreases 4 - cpos + (if st == Detect then 1 else 0)
    {
      if next >= |data| {
        st := DetectCommandWord;
      } else {
        w := SetByte(w, cpos, data[next]);
        next := next + 1;
        if cpos == 3 {
          st := Dispatch;
        }
        cpos := cpos + 1;
      }
    }
  }

  // ---------------------------------------------------------------------
  // The object

  class CommandStream {
    /** m_header: the four bytes that start every command. */
    const header: seq<byte>
    var state: State
    var headerScanPos: nat
    var commandScanPos: nat
    var retryCount: nat
    var current: Option<HandlerId>
    var handlers: map<Word, Option<HandlerId>>
    /** The command word kept between packets; only StreamFixed uses it. */
    var command: Word
    var needsUsbResume: bool
    /** The m_uLen of each FIFO buffer, one per buffer. */
    var lens: seq<byte>
    var readPos: nat
    var writePos: nat
    var usedCount: nat

    function Snapshot(): Machine
      reads this
    {
      Machine(state, headerScanPos, commandScanPos, retryCount, current, handlers, command)
    }

    /** The ring's bookkeeping agrees: the write position is `used` slots
        after the read position, and all but one buffer at most are full. */
    predicate FifoValid()
      reads this
    {
      |lens| >= 1 && readPos < |lens| && usedCount <= |lens| - 1 &&
      writePos == RingSlot(readPos, usedCount, |lens|)
    }

    predicate Valid()
      reads this
    {
      |header| == 4 && MachineValid(Snapshot()) && FifoValid()
    }

    /** The lengths of the packets waiting in the FIFO, oldest first. */
    function Contents(): (q: seq<byte>)
      reads this
      requires FifoValid()
      ensures |q| == usedCount < |lens|
    {
      Queued(lens, readPos, usedCount)
    }

    /** A command stream with the given header and `buffers` FIFO buffers:
        no handlers, nothing queued. */
    constructor(header: seq<byte>, buffers: nat)
      requires |header| == 4 && buffers >= 1
      ensures Valid() && this.header == header && |lens| == buffers && Contents() == []
      ensures state == Detect && headerScanPos == 0 && handlers == map[] && !needsUsbResume
    {
      this.header := header;
      state := Detect;
      headerScanPos := 0;
      commandScanPos := 0;
      retryCount := 0;
      current := None;
      handlers := map[];
      command := NoCommand;
      needsUsbResume := false;
      lens := seq(buffers, _ => 0);
      readPos := 0;
      writePos := 0;
      usedCount := 0;
    }

    /** Init (lines 13-18): back to Detect with no partial header and no
        USB resume pending; everything else is kept. */
    method Init()
      requires Valid()
      modifies this
      ensures Valid()
      ensures Snapshot() == old(Snapshot()).(state := Detect, headerPos := 0) && !needsUsbResume
      ensures lens == old(lens) && readPos == old(readPos) && writePos == old(writePos) && usedCount == old(usedCount)
    {
      state := Detect;
      headerScanPos := 0;
      needsUsbResume := false;
    }

    /** AddCommandHandler (lines 20-23): the handler replaces any earlier one
        for the word; see LookupAfterRegister. */
    method AddCommandHandler(cmd: Word, handler: Option<HandlerId>)
      requires Valid()
      modifies this
      ensures Valid()
      ensures Snapshot() == old(Snapshot()).(handlers := old(handlers)[cmd := handler])
      ensures needsUsbResume == old(needsUsbResume)
      ensures lens == old(lens) && readPos == old(readPos) && writePos == old(writePos) && usedCount == old(usedCount)
    {
      handlers := handlers[cmd := handler];
    }

    /** Lines 144-194 on the fields: dispatch, then processing. */
    method DispatchAndProcess(cmd: Word, pos: nat, len: nat, init: bool, result: StreamResult)
      returns (dispatched: Option<Word>, added: Option<Added>)
      requires Settled(Snapshot())
      modifies this
      ensures var o := Back(old(Snapshot()), cmd, pos, len, init, result);
        Snapshot() == o.m && dispatched == o.dispatched && added == o.added
      ensures needsUsbResume == old(needsUsbResume)
      ensures lens == old(lens) && readPos == old(readPos) && writePos == old(writePos) && usedCount == old(usedCount)
    {
      dispatched, added := None, None;
      if state == Dispatch {
        retryCount := 0;
        dispatched := Some(cmd);
        if cmd in handlers {
          current := handlers[cmd];
        } else {
          current := None;
          handlers := handlers[cmd := None];
        }
        if current.Some? && init {
          state := Processing;
        } else {
          state := Detect;
        }
      }
      if state == Processing {
        added := Some(Added(pos, Wrap32(len - pos)));
        match result {
          case Error => state := Detect;
          case Finish => state := Detect;
          case NeedData =>
            retryCount := retryCount + 1;
            if retryCount > 1 {
              state := Detect;
            }
          case Continue =>
        }
      }
    }

    /** The header and command phases of Stream (lines 85-142) as written:
        the command word is a local that starts at 0. */
    method ReadAsWritten(mem: seq<byte>, len: nat) returns (pos: nat, cmd: Word)
      requires Valid() && len < |mem| && 4 <= |mem|
      modifies this
      ensures var f := FrontAsWritten(header, old(Snapshot()), mem, len);
        Snapshot() == Entered(old(Snapshot()), f) && pos == f.pos && cmd == f.command
      ensures needsUsbResume == old(needsUsbResume)
      ensures lens == old(lens) && readPos == old(readPos) && writePos == old(writePos) && usedCount == old(usedCount)
    {
      pos, cmd := 0, NoCommand;
      if state == Detect {
        var found, next, hpos, cpos := ScanLoop(header, mem[..len], headerScanPos, commandScanPos);
        headerScanPos, commandScanPos, pos := hpos, cpos, next;
        if found {
          var st, nx, cp, w := GatherLoopAsWritten(mem, len, pos, cmd);
          state, pos, commandScanPos, cmd := st, nx, cp, w;
        }
      } else if state == DetectCommandWord {
        var nx, w := FinishLoopAsWritten(mem, commandScanPos, cmd);
        state, pos, commandScanPos, cmd := Dispatch, nx, 4, w;
      }
    }

    /** Stream(data, len) as written (lines 78-198). `mem` is the packet
        buffer: its first len bytes are the packet, and the code may read
        past them (the byte at index len, or up to four bytes in the
        command-word state). The answer is whether a command is still in
        progress. */
    method Stream(mem: seq<byte>, len: nat, init: bool, result: StreamResult)
      returns (busy: bool, dispatched: Option<Word>, added: Option<Added>)
      requires Valid() && len < |mem| && 4 <= |mem|
      modifies this
      ensures Valid()
      ensures var o := StepAsWritten(header, old(Snapshot()), mem, len, init, result);
        Snapshot() == o.m && dispatched == o.dispatched && added == o.added
      ensures busy == (state != Detect)
      ensures needsUsbResume == old(needsUsbResume)
      ensures lens == old(lens) && readPos == old(readPos) && writePos == old(writePos) && usedCount == old(usedCount)
    {
      var pos, cmd := ReadAsWritten(mem, len);
      dispatched, added := DispatchAndProcess(cmd, pos, len, init, result);
      busy := state != Detect;
    }

    /** The header and command phases of StreamFixed. */
    method ReadFixed(data: seq<byte>) returns (pos: nat)
      requires Valid()
      modifies this
      ensures var f := FrontFixed(header, old(Snapshot()), data);
        Snapshot() == Entered(old(Snapshot()), f).(command := f.command) && pos == f.pos
      ensures needsUsbResume == old(needsUsbResume)
      ensures lens == old(lens) && readPos == old(readPos) && writePos == old(writePos) && usedCount == old(usedCount)
    {
      pos := 0;
      if state == Detect {
        var found, next, hpos, cpos := ScanLoop(header, data, headerScanPos, commandScanPos);
        headerScanPos, commandScanPos, pos := hpos, cpos, next;
        if found {
          var st, nx, cp, w := GatherLoopFixed(data, pos, 0, NoCommand);
          state, pos, commandScanPos, command := st, nx, cp, w;
        }
      } else if state == DetectCommandWord {
        var st, nx, cp, w := GatherLoopFixed(data, 0, commandScanPos, command);
        state, pos, commandScanPos, command := st, nx, cp, w;
      }
    }

    /** Stream(data, len) corrected: the command word is gathered only from
        the packet's own bytes and persists between packets. */
    method StreamFixed(data: seq<byte>, init: bool, result: StreamResult)
      returns (busy: bool, dispatched: Option<Word>, added: Option<Added>)
      requires Valid()
      modifies this
      ensures Valid()
      ensures var o := StepFixed(header, old(Snapshot()), data, init, result);
        Snapshot() == o.m && dispatched == o.dispatched && added == o.added
      ensures busy == (state != Detect)
      ensures needsUsbResume == old(needsUsbResume)
      ensures lens == old(lens) && readPos == old(readPos) && writePos == old(writePos) && usedCount == old(usedCount)
    {
      var pos := ReadFixed(data);
      dispatched, added := DispatchAndProcess(command, pos, |data|, init, result);
      busy := state != Detect;
    }

    /** GetFifoWriteBuffer (lines 206-220): the buffer at the write position
        while fewer than all but one are in use; otherwise none, and a USB
        resume becomes pending. */
    method GetFifoWriteBuffer() returns (buffer: Option<nat>)
      requires Valid()
      modifies this
      ensures Valid()
      ensures usedCount < |lens| - 1 ==> buffer == Some(writePos) && needsUsbResume == old(needsUsbResume)
      ensures buffer.Some? ==> forall i :: 0 <= i < usedCount ==> RingSlot(readPos, i, |lens|) != buffer.value
      ensures usedCount == |lens| - 1 ==> buffer.None? && needsUsbResume
      ensures Snapshot() == old(Snapshot())
      ensures lens == old(lens) && readPos == old(readPos) && writePos == old(writePos) && usedCount == old(usedCount)
    {
      buffer := None;
      if usedCount < |lens| - 1 {
        buffer := Some(writePos);
      } else {
        needsUsbResume := true;
      }
    }

    /** ReleaseFifoWriteBuffer (lines 222-233): the filled buffer's length
        joins the back of the queue. Callers release only a buffer
        GetFifoWriteBuffer handed out, so one is free. */
    method ReleaseFifoWriteBuffer(len: byte)
      requires Valid() && usedCount < |lens| - 1
      modifies this
      ensures Valid()
      ensures Contents() == old(Contents()) + [len]
      ensures lens == old(lens)[old(writePos) := len] && readPos == old(readPos) && usedCount == old(usedCount) + 1
      ensures writePos == RingSlot(old(writePos), 1, |lens|)
      ensures Snapshot() == old(Snapshot()) && needsUsbResume == old(needsUsbResume)
    {
      QueuedPush(lens, readPos, usedCount, len);
      lens := lens[writePos := len];
      writePos := writePos + 1;
      if writePos == |lens| {
        writePos := 0;
      }
      usedCount := usedCount + 1;
    }

    /** GetFifoReadElement (lines 235-247): the buffer at the read position,
        which holds the oldest queued packet, when one is queued. */
    method GetFifoReadElement() returns (element: Option<nat>)
      requires FifoValid()
      ensures element == if usedCount > 0 then Some(readPos) else None
      ensures element.Some? ==> lens[element.value] == Contents()[0]
      ensures element.None? <==> Contents() == []
    {
      element := None;
      if usedCount > 0 {
        element := Some(readPos);
      }
    }

    /** ReleaseFifoReadElement (lines 249-258): the oldest packet leaves the
        queue. Callers release only an element GetFifoReadElement handed
        out, so one is queued. */
    method ReleaseFifoReadElement()
      requires Valid() && usedCount > 0
      modifies this
      ensures Valid()
      ensures Contents() == old(Contents())[1..]
      ensures lens == old(lens) && writePos == old(writePos) && usedCount == old(usedCount) - 1
      ensures readPos == RingSlot(old(readPos), 1, |lens|)
      ensures Snapshot() == old(Snapshot()) && needsUsbResume == old(needsUsbResume)
    {
      ghost var next := if readPos + 1 == |lens| then 0 else readPos + 1;
      QueuedPop(lens, readPos, usedCount, next);
      usedCount := usedCount - 1;
      readPos := readPos + 1;
      if readPos == |lens| {
        readPos := 0;
      }
    }
  }
}

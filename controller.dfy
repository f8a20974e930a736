/**
 * The controller object of pencompy/pencompy.py with its transport, threads
 * and logging taken away: `Pencompy` keeps the relay state table, the board
 * the poller last asked about and the reader loop's pending text; `Polling`
 * is one pass of the poller thread.  What the program sends and the change
 * callbacks it makes are kept as ghost logs.
 */
module Controller {
  import opened Wrappers
  import opened Wire
  import opened RelayTable
  import opened Framer

  /**
   * A line handed to `send` (the transport appends '\n'), with the board the
   * reader attributes the next status line to at the moment it leaves.
   */
  datatype Outgoing = Outgoing(line: string, awaiting: nat)

  /**
   * The reader loop's own state: the relay table, the changes reported so
   * far, the text received since the last carriage return, and whether the
   * loop is still running.
   */
  datatype Reader = Reader(table: Table, changes: seq<Change>, pending: string, alive: bool)

  /** One received byte, with `board` the polled board. */
  function ReadByte(board: nat, r: Reader, byte: Byte): (s: Reader)
    requires IsTable(r.table, |r.table|) && board < |r.table|
    ensures IsTable(s.table, |r.table|)
  {
    if !r.alive then r
    else if byte == CR then
      var p := ProcessLine(r.table, board, Strip(r.pending));
      Reader(p.0, r.changes + p.1, "", true)
    else if byte < 128 then r.(pending := r.pending + [byte as char])
    else r.(alive := false)
  }

  /** A stretch of received bytes, byte by byte. */
  function Read(board: nat, r: Reader, input: seq<Byte>): (s: Reader)
    requires IsTable(r.table, |r.table|) && board < |r.table|
    ensures IsTable(s.table, |r.table|)
    decreases |input|
  {
    if input == [] then r else Read(board, ReadByte(board, r, input[0]), input[1..])
  }

  /** Once the loop has ended, nothing more is read. */
  lemma {:induction false} ReadStopped(board: nat, r: Reader, input: seq<Byte>)
    requires IsTable(r.table, |r.table|) && board < |r.table| && !r.alive
    ensures Read(board, r, input) == r
    decreases |input|
  {
    if input != [] {
      ReadStopped(board, r, input[1..]);
    }
  }

  /**
   * Reading byte by byte is framing the bytes into lines and then processing
   * the lines in order: the table and the changes are those of the complete
   * lines, and what is left pending is the unterminated tail.
   */
  lemma {:induction false} ReadFrames(board: nat, r: Reader, input: seq<Byte>)
    requires IsTable(r.table, |r.table|) && board < |r.table| && r.alive
    ensures var f := Frame(r.pending, input);
      var a := ApplyLines(r.table, board, f.lines);
      Read(board, r, input) == Reader(a.0, r.changes + a.1, f.pending, f.alive)
    decreases |input|
  {
    if input == [] {
      assert r.changes + [] == r.changes;
      return;
    }
    FrameStep(r.pending, input);
    if input[0] == CR {
      var line := Strip(r.pending);
      var p := ProcessLine(r.table, board, line);
      var g := Frame("", input[1..]);
      ReadFrames(board, Reader(p.0, r.changes + p.1, "", true), input[1..]);
      ApplyLinesCons(r.table, board, line, g.lines);
      var a := ApplyLines(p.0, board, g.lines);
      assert r.changes + p.1 + a.1 == r.changes + (p.1 + a.1);
    } else if input[0] < 128 {
      ReadFrames(board, r.(pending := r.pending + [input[0] as char]), input[1..]);
    } else {
      ReadStopped(board, r.(alive := false), input[1..]);
      assert r.changes + [] == r.changes;
    }
  }

  /** A one-character line and its carriage return: the line is processed and nothing stays pending. */
  lemma ReadShortLine(board: nat, r: Reader, c: Byte)
    requires IsTable(r.table, |r.table|) && board < |r.table| && r.alive && r.pending == ""
    requires c < 128 && !IsSpace(c as char) && c != CR
    ensures var p := ProcessLine(r.table, board, [c as char]);
      Read(board, r, [c, CR]) == Reader(p.0, r.changes + p.1, "", true)
  {
    var s := ReadByte(board, r, c);
    assert s == r.(pending := [c as char]);
    assert Strip([c as char]) == [c as char];
    assert [c, CR][1..] == [CR] && [CR][1..] == [];
    assert Read(board, r, [c, CR]) == Read(board, s, [CR]);
    assert Read(board, s, [CR]) == Read(board, ReadByte(board, s, CR), []);
  }

  class Pencompy {
    const boards: nat
    /** Whether a change callback was given to the constructor. */
    const hasCallback: bool
    /** `polling_board`: the board the next status line is taken to describe. */
    var pollingBoard: nat
    /** `_states`, indexed by board and relay. */
    var states: Table
    /** The reader loop's `data`: text received since the last carriage return. */
    var pending: string
    /** False once the reader loop has ended with an exception. */
    var reading: bool
    ghost var sent: seq<Outgoing>
    ghost var notified: seq<Change>

    ghost predicate Valid()
      reads this
    {
      1 <= boards <= MaxBoard + 1 && pollingBoard < boards &&
      IsTable(states, boards) && '\r' !in pending
    }

    /** The callbacks the program makes for these changes: none without a callback. */
    function Notified(cs: seq<Change>): seq<Change>
    {
      if hasCallback then cs else []
    }

    /** `__init__` and `_connect`: a table of Unknown cells, polling board 0, nothing received yet. */
    constructor (boards: nat, hasCallback: bool)
      requires 1 <= boards <= MaxBoard + 1
      ensures Valid()
      ensures this.boards == boards && this.hasCallback == hasCallback
      ensures states == InitialTable(boards) && pollingBoard == 0
      ensures pending == "" && reading
      ensures sent == [] && notified == []
    {
      this.boards := boards;
      this.hasCallback := hasCallback;
      pollingBoard := 0;
      states := InitialTable(boards);
      pending := "";
      reading := true;
      sent := [];
      notified := [];
    }

    method Send(command: string)
      modifies this`sent
      ensures sent == old(sent) + [Outgoing(command, pollingBoard)]
    {
      sent := sent + [Outgoing(command, pollingBoard)];
    }

    /** `set`: one write command for a valid relay, nothing at all otherwise; the table is left alone. */
    method Set(board: int, addr: int, state: bool)
      requires Valid()
      modifies this`sent
      ensures sent == old(sent) +
        if 0 <= board < boards && 0 <= addr < RelaysPerBoard
        then [Outgoing(Encode(SetRelay(board, addr, state)), pollingBoard)]
        else []
    {
      if 0 <= board < boards && 0 <= addr < RelaysPerBoard {
        Send(Encode(SetRelay(board, addr, state)));
      }
    }

    /** `get`: the cached state of a valid relay, Unknown for any index out of range. */
    method Get(board: int, addr: int) returns (s: Tri)
      requires Valid()
      ensures 0 <= board < boards && 0 <= addr < RelaysPerBoard ==> s == states[board][addr]
      ensures !(0 <= board < boards && 0 <= addr < RelaysPerBoard) ==> s == Unknown
    {
      if 0 <= board < boards && 0 <= addr < RelaysPerBoard {
        return states[board][addr];
      }
      return Unknown;
    }

    /**
     * `_update_state` with its evident intent: the guard admits exactly the
     * valid relays (the source's guard is inverted) and the callback receives
     * `addr` (the source names an undefined `relay`).  The callback is made
     * before the cell is written.
     */
    method UpdateState(addr: int, newState: bool)
      requires Valid()
      modifies this`states, this`notified
      ensures Valid()
      ensures 0 <= addr < RelaysPerBoard ==>
        var u := UpdateCell(old(states), pollingBoard, addr, OfBool(newState));
        states == u.0 && notified == old(notified) + Notified(u.1)
      ensures !(0 <= addr < RelaysPerBoard) ==> states == old(states) && notified == old(notified)
    {
      if !(0 <= addr < RelaysPerBoard) {
        return;
      }
      var board := pollingBoard;
      var oldState := states[board][addr];
      if oldState != OfBool(newState) {
        if hasCallback {
          notified := notified + [Change(board, addr, oldState, OfBool(newState))];
        }
        states := states[board := states[board][addr := OfBool(newState)]];
      }
    }

    /**
     * `_processReceivedData`: a numeric line updates the polled board from its
     * bits; an empty line, or one int() rejects, is dropped.
     */
    method ProcessReceivedData(data: string)
      requires Valid()
      modifies this`states, this`notified
      ensures Valid()
      ensures var p := ProcessLine(old(states), pollingBoard, data);
        states == p.0 && notified == old(notified) + Notified(p.1)
    {
      if |data| > 0 {
        var parsed := ParseInt(data);
        if parsed.Some? {
          UpdateRelays(parsed.value);
        }
      }
    }

    /**
     * The relay loop of `_processReceivedData`: relays 0..7 of the polled
     * board take bits 0..7 of the status word, tested with a one-bit mask
     * that is shifted left after each relay.
     */
    method UpdateRelays(bits: int)
      requires Valid()
      modifies this`states, this`notified
      ensures Valid()
      ensures var row := DecodeRow(bits);
        states == old(states)[pollingBoard := row] &&
        notified == old(notified) + Notified(Diff(pollingBoard, old(states)[pollingBoard], row))
    {
      ghost var row := DecodeRow(bits);
      ghost var before := states[pollingBoard];
      var mask := 1;
      assert row[..0] + before[0..] == before;
      assert old(states)[pollingBoard := before] == old(states);
      for relay := 0 to RelaysPerBoard
        invariant Valid()
        invariant mask == Pow2(relay)
        invariant states == old(states)[pollingBoard := row[..relay] + before[relay..]]
        invariant notified == old(notified) + Notified(Diff(pollingBoard, before[..relay], row[..relay]))
      {
        // `(bits & mask) != 0` for the one-bit mask 1 << relay
        var on := (bits / mask) % 2 != 0;
        assert OfBool(on) == row[relay];
        UpdateRelay(relay, on, old(states), old(notified), before, row);
        mask := mask * 2;
      }
      assert row[..RelaysPerBoard] + before[RelaysPerBoard..] == row;
      assert row[..RelaysPerBoard] == row;
      assert before[..RelaysPerBoard] == before;
    }

    /**
     * One turn of the relay loop: relay `relay` takes its decoded value, which
     * extends the decoded prefix of the row and the callbacks made for it.
     */
    method UpdateRelay(relay: nat, on: bool, ghost t: Table, ghost n: seq<Change>, ghost before: seq<Tri>, ghost row: seq<Tri>)
      requires Valid() && IsTable(t, boards) && relay < RelaysPerBoard
      requires |before| == RelaysPerBoard && |row| == RelaysPerBoard && OfBool(on) == row[relay]
      requires states == t[pollingBoard := row[..relay] + before[relay..]]
      requires notified == n + Notified(Diff(pollingBoard, before[..relay], row[..relay]))
      modifies this`states, this`notified
      ensures Valid()
      ensures states == t[pollingBoard := row[..relay + 1] + before[relay + 1..]]
      ensures notified == n + Notified(Diff(pollingBoard, before[..relay + 1], row[..relay + 1]))
    {
      RowUpdateStep(t, pollingBoard, before, row, relay);
      ghost var cs := Diff(pollingBoard, before[..relay], row[..relay]);
      ghost var u := UpdateCell(states, pollingBoard, relay, row[relay]);
      UpdateState(relay, on);
      assert Notified(cs) + Notified(u.1) == Notified(cs + u.1);
    }

    /**
     * The reader loop of `run` over a stretch of received bytes: each carriage
     * return hands the stripped pending text to the decoder and empties it;
     * other ASCII bytes are collected; any other byte ends the loop.
     */
    method Receive(input: seq<Byte>)
      requires Valid()
      modifies this`states, this`notified, this`pending, this`reading
      ensures Valid()
      ensures old(reading) ==>
        var r := Read(pollingBoard, Reader(old(states), [], old(pending), true), input);
        states == r.table && pending == r.pending && reading == r.alive &&
        notified == old(notified) + Notified(r.changes)
      ensures !old(reading) ==>
        !reading && pending == old(pending) && states == old(states) && notified == old(notified)
    {
      if !reading {
        return;
      }
      ghost var start := Reader(states, [], pending, true);
      ghost var cur := start;
      var i := 0;
      assert input[i..] == input;
      while i < |input| && reading
        invariant 0 <= i <= |input|
        invariant Valid()
        invariant IsTable(cur.table, boards)
        invariant states == cur.table && pending == cur.pending && reading == cur.alive
        invariant notified == old(notified) + Notified(cur.changes)
        invariant Read(pollingBoard, start, input) == Read(pollingBoard, cur, input[i..])
      {
        assert input[i..][0] == input[i] && input[i..][1..] == input[i + 1..];
        cur := HandleByte(cur, old(notified), input[i]);
        i := i + 1;
      }
      if reading {
        assert input[i..] == [];
      } else {
        ReadStopped(pollingBoard, cur, input[i..]);
      }
    }

    /**
     * The body of the reader loop in `run`, for one received byte: it
     * continues the reader state `cur` as `ReadByte` does; `n` is what was
     * notified before the loop started.
     */
    method HandleByte(ghost cur: Reader, ghost n: seq<Change>, byte: Byte) returns (ghost next: Reader)
      requires Valid() && reading && IsTable(cur.table, boards)
      requires states == cur.table && pending == cur.pending && reading == cur.alive
      requires notified == n + Notified(cur.changes)
      modifies this`states, this`notified, this`pending, this`reading
      ensures Valid() && IsTable(next.table, boards)
      ensures next == ReadByte(pollingBoard, cur, byte)
      ensures states == next.table && pending == next.pending && reading == next.alive
      ensures notified == n + Notified(next.changes)
    {
      next := ReadByte(pollingBoard, cur, byte);
      if byte == CR {
        ghost var p := ProcessLine(states, pollingBoard, Strip(pending));
        ProcessReceivedData(Strip(pending));
        pending := "";
        assert Notified(cur.changes) + Notified(p.1) == Notified(cur.changes + p.1);
      } else if byte < 128 {
        pending := pending + [byte as char];
      } else {
        // `byte.decode('utf-8')` raises on a lone byte above 0x7F, ending the loop
        reading := false;
      }
    }
  }

  /** The lines one poller pass sends: boards 0, 1, ..., n-1, each while it is the polled board. */
  function PollPass(n: nat): seq<Outgoing>
    requires n <= MaxBoard + 1
  {
    if n == 0 then [] else PollPass(n - 1) + [Outgoing(Encode(Poll(n - 1)), n - 1)]
  }

  lemma {:induction false} PollPassAt(n: nat)
    requires n <= MaxBoard + 1
    ensures |PollPass(n)| == n
    ensures forall b :: 0 <= b < n ==> PollPass(n)[b] == Outgoing(Encode(Poll(b)), b)
  {
    if n > 0 {
      PollPassAt(n - 1);
      assert forall b :: 0 <= b < n - 1 ==> PollPass(n)[b] == PollPass(n - 1)[b];
    }
  }

  /** A pass asks every board once, in board order, each while the reader awaits that board. */
  lemma PollPassInOrder(n: nat)
    requires n <= MaxBoard + 1
    ensures |PollPass(n)| == n
    ensures forall b :: 0 <= b < n ==>
      PollPass(n)[b].awaiting == b && Decode(PollPass(n)[b].line) == Some(Poll(b))
  {
    PollPassAt(n);
    forall b | 0 <= b < n
      ensures Decode(PollPass(n)[b].line) == Some(Poll(b))
    {
      EncodeDecode(Poll(b));
    }
  }

  class Polling {
    const pencom: Pencompy

    constructor (pencom: Pencompy)
      ensures this.pencom == pencom
    {
      this.pencom := pencom;
    }

    /** One pass of `Polling.run`: for each board, make it the polled board, then ask for its status. */
    method Pass()
      requires pencom.Valid()
      modifies pencom`pollingBoard, pencom`sent
      ensures pencom.Valid()
      ensures pencom.sent == old(pencom.sent) + PollPass(pencom.boards)
      ensures pencom.pollingBoard == pencom.boards - 1
    {
      for board := 0 to pencom.boards
        invariant pencom.Valid()
        invariant pencom.sent == old(pencom.sent) + PollPass(board)
        invariant board > 0 ==> pencom.pollingBoard == board - 1
      {
        pencom.pollingBoard := board;
        pencom.Send(Encode(Poll(board)));
      }
    }
  }

  /**
   * The two status lines of the scenario below, byte by byte, for board A of
   * a one-board table.  As in `ZeroThenOne`, the constants are parameters
   * fixed by the precondition, so that the verifier does not unfold the
   * all-literal calls eagerly and exhaust its resource budget.
   */
  lemma ZeroThenOneRead(board: nat, t: Table, zero: Byte, one: Byte)
    requires board == 0 && t == InitialTable(1) && zero == '0' as int && one == '1' as int
    ensures Read(board, Reader(t, [], "", true), [zero, CR]) ==
      Reader([seq(RelaysPerBoard, _ => Off)],
        seq(RelaysPerBoard, r requires 0 <= r < RelaysPerBoard => Change(0, r, Unknown, Off)), "", true)
    ensures Read(board, Reader([seq(RelaysPerBoard, _ => Off)], [], "", true), [one, CR]) ==
      Reader([[On, Off, Off, Off, Off, Off, Off, Off]], [Change(0, 0, Off, On)], "", true)
  {
    ZeroThenOne(t, board, [zero as char], [one as char]);
    var p := ProcessLine(t, board, [zero as char]);
    ReadShortLine(board, Reader(t, [], "", true), zero);
    assert [] + p.1 == p.1;
    var q := ProcessLine(p.0, board, [one as char]);
    ReadShortLine(board, Reader(p.0, [], "", true), one);
    assert [] + q.1 == q.1;
  }

  /**
   * A one-board controller polls board A, which answers "0" and then "1":
   * relay 0 reads Off after the first answer and On after the second (the
   * callbacks made on the way are those `ZeroThenOneRead` lists).
   */
  method ZeroThenOneScenario() returns (first: Tri, second: Tri)
    ensures first == Off && second == On
  {
    var pencom := new Pencompy(1, true);
    var poller := new Polling(pencom);
    poller.Pass();
    var zero: Byte, one: Byte := '0' as int, '1' as int;
    ZeroThenOneRead(pencom.pollingBoard, pencom.states, zero, one);
    pencom.Receive([zero, CR]);
    first := pencom.Get(0, 0);
    pencom.Receive([one, CR]);
    second := pencom.Get(0, 0);
  }
}

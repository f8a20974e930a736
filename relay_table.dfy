/**
 * The cached relay state table of pencompy/pencompy.py (`_states`) and the
 * effect a status line has on it, as values: the class in module Controller
 * is proved to update its table exactly as these functions say.
 */
module RelayTable {
  import opened Wrappers
  import opened Wire

  /** A relay's cached state: -1 (never observed), False or True in the source. */
  datatype Tri = Unknown | Off | On

  function OfBool(b: bool): Tri
  {
    if b then On else Off
  }

  /** One row per board, one cell per relay. */
  type Table = seq<seq<Tri>>

  ghost predicate IsTable(t: Table, boards: nat)
  {
    |t| == boards && forall b :: 0 <= b < |t| ==> |t[b]| == RelaysPerBoard
  }

  /** The table `_connect` builds: every relay of every board Unknown. */
  function InitialTable(boards: nat): (t: Table)
    ensures IsTable(t, boards)
    ensures forall b, r :: 0 <= b < boards && 0 <= r < RelaysPerBoard ==> t[b][r] == Unknown
  {
    seq(boards, _ => seq(RelaysPerBoard, _ => Unknown))
  }

  /** One invocation of the change callback: (board, relay, old_state, new_state). */
  datatype Change = Change(board: nat, relay: nat, previous: Tri, current: Tri)

  /**
   * The intended `_update_state` for a valid relay of the polled board: the
   * new table and the callback it fires.  Only that cell may change, and the
   * callback fires exactly when the cached value differs from the new one.
   */
  function UpdateCell(t: Table, board: nat, addr: nat, v: Tri): (r: (Table, seq<Change>))
    requires IsTable(t, |t|) && board < |t| && addr < RelaysPerBoard
    ensures IsTable(r.0, |t|)
    ensures r.0[board][addr] == v
    ensures forall b, a :: 0 <= b < |t| && 0 <= a < RelaysPerBoard && (b, a) != (board, addr) ==> r.0[b][a] == t[b][a]
    ensures t[board][addr] == v ==> r.1 == [] && r.0 == t
    ensures t[board][addr] != v ==> r.1 == [Change(board, addr, t[board][addr], v)]
  {
    var previous := t[board][addr];
    if previous != v then
      (t[board := t[board][addr := v]], [Change(board, addr, previous, v)])
    else
      (t, [])
  }

  /** The row a status word gives a board: relay r On exactly when bit r is set. */
  function DecodeRow(bits: int): (row: seq<Tri>)
    ensures |row| == RelaysPerBoard
  {
    seq(RelaysPerBoard, r requires 0 <= r < RelaysPerBoard => OfBool(StatusBits(bits)[r]))
  }

  /** The callbacks that replacing row `before` by row `after` fires, in relay order. */
  function Diff(board: nat, before: seq<Tri>, after: seq<Tri>): (cs: seq<Change>)
    requires |before| == |after|
    decreases |before|
  {
    if before == [] then []
    else
      var n := |before| - 1;
      Diff(board, before[..n], after[..n]) +
      (if before[n] != after[n] then [Change(board, n, before[n], after[n])] else [])
  }

  /**
   * Diff fires one callback per relay whose value differs, with that relay's
   * old and new values, in relay order, and none for the relays that keep
   * their value.
   */
  lemma {:induction false} DiffExact(board: nat, before: seq<Tri>, after: seq<Tri>)
    requires |before| == |after|
    ensures var cs := Diff(board, before, after);
      (forall k :: 0 <= k < |cs| ==>
        cs[k].board == board && cs[k].relay < |before| &&
        cs[k].previous == before[cs[k].relay] && cs[k].current == after[cs[k].relay] &&
        cs[k].previous != cs[k].current) &&
      (forall k, l :: 0 <= k < l < |cs| ==> cs[k].relay < cs[l].relay) &&
      (forall r :: 0 <= r < |before| && before[r] != after[r] ==> Change(board, r, before[r], after[r]) in cs)
    decreases |before|
  {
    if before != [] {
      var n := |before| - 1;
      DiffExact(board, before[..n], after[..n]);
    }
  }

  /** When every relay differs, each one is reported, in relay order. */
  lemma {:induction false} DiffAllDiffer(board: nat, before: seq<Tri>, after: seq<Tri>)
    requires |before| == |after|
    requires forall i :: 0 <= i < |before| ==> before[i] != after[i]
    ensures Diff(board, before, after) ==
      seq(|before|, i requires 0 <= i < |before| => Change(board, i, before[i], after[i]))
    decreases |before|
  {
    if before != [] {
      var n := |before| - 1;
      DiffAllDiffer(board, before[..n], after[..n]);
    }
  }

  /** When one relay alone differs, it is the only one reported. */
  lemma {:induction false} DiffOneDiffers(board: nat, before: seq<Tri>, after: seq<Tri>, r: nat)
    requires |before| == |after| && r < |before| && before[r] != after[r]
    requires forall i :: 0 <= i < |before| && i != r ==> before[i] == after[i]
    ensures Diff(board, before, after) == [Change(board, r, before[r], after[r])]
    decreases |before|
  {
    var n := |before| - 1;
    if r == n {
      assert before[..n] == after[..n];
      DiffSame(board, before[..n]);
    } else {
      DiffOneDiffers(board, before[..n], after[..n], r);
    }
  }

  /** Replacing a row by itself fires no callback. */
  lemma {:induction false} DiffSame(board: nat, row: seq<Tri>)
    ensures Diff(board, row, row) == []
    decreases |row|
  {
    if row != [] {
      DiffSame(board, row[..|row| - 1]);
    }
  }

  /**
   * `_processReceivedData` for the polled board: a line int() rejects changes
   * nothing; a number replaces the board's row by its decoded bits.
   */
  function ProcessLine(t: Table, board: nat, line: string): (r: (Table, seq<Change>))
    requires IsTable(t, |t|) && board < |t|
    ensures IsTable(r.0, |t|)
  {
    match ParseInt(line)
    case None => (t, [])
    case Some(bits) =>
      var row := DecodeRow(bits);
      (t[board := row], Diff(board, t[board], row))
  }

  /** The lines of one stretch of input, processed in order for the same polled board. */
  function ApplyLines(t: Table, board: nat, lines: seq<string>): (r: (Table, seq<Change>))
    requires IsTable(t, |t|) && board < |t|
    ensures IsTable(r.0, |t|)
    decreases |lines|
  {
    if lines == [] then (t, [])
    else
      var n := |lines| - 1;
      var a := ApplyLines(t, board, lines[..n]);
      var p := ProcessLine(a.0, board, lines[n]);
      (p.0, a.1 + p.1)
  }

  /**
   * One step of the relay loop: writing relay k of a row whose first k cells
   * are already decoded extends the decoded prefix by one, and its callback
   * extends the changes of the prefix by one relay.
   */
  lemma RowUpdateStep(t: Table, board: nat, before: seq<Tri>, row: seq<Tri>, k: nat)
    requires IsTable(t, |t|) && board < |t| && k < RelaysPerBoard
    requires |before| == RelaysPerBoard && |row| == RelaysPerBoard
    ensures IsTable(t[board := row[..k] + before[k..]], |t|)
    ensures var u := UpdateCell(t[board := row[..k] + before[k..]], board, k, row[k]);
      u.0 == t[board := row[..k + 1] + before[k + 1..]] &&
      Diff(board, before[..k], row[..k]) + u.1 == Diff(board, before[..k + 1], row[..k + 1])
  {
    var cur := t[board := row[..k] + before[k..]];
    assert cur[board][k] == before[k];
    assert cur[board][k := row[k]] == row[..k + 1] + before[k + 1..];
    assert cur[board := row[..k + 1] + before[k + 1..]] == t[board := row[..k + 1] + before[k + 1..]];
    if before[k] == row[k] {
      assert row[..k] + before[k..] == row[..k + 1] + before[k + 1..];
    }
    assert before[..k + 1][..k] == before[..k];
    assert row[..k + 1][..k] == row[..k];
  }

  lemma ApplyLinesSnoc(t: Table, board: nat, lines: seq<string>, line: string)
    requires IsTable(t, |t|) && board < |t|
    ensures var a := ApplyLines(t, board, lines);
      var p := ProcessLine(a.0, board, line);
      ApplyLines(t, board, lines + [line]) == (p.0, a.1 + p.1)
  {
    assert (lines + [line])[..|lines|] == lines;
  }

  /** Processing a first line and then the rest is processing them all. */
  lemma {:induction false} ApplyLinesCons(t: Table, board: nat, line: string, lines: seq<string>)
    requires IsTable(t, |t|) && board < |t|
    ensures var p := ProcessLine(t, board, line);
      var a := ApplyLines(p.0, board, lines);
      ApplyLines(t, board, [line] + lines) == (a.0, p.1 + a.1)
    decreases |lines|
  {
    var p := ProcessLine(t, board, line);
    if lines == [] {
      assert [line] + lines == [] + [line];
      ApplyLinesSnoc(t, board, [], line);
      assert [] + p.1 == p.1 + [];
    } else {
      var n := |lines| - 1;
      ApplyLinesCons(t, board, line, lines[..n]);
      assert ([line] + lines)[..|lines|] == [line] + lines[..n];
      assert ([line] + lines)[|lines|] == lines[n];
      var a := ApplyLines(p.0, board, lines[..n]);
      var q := ProcessLine(a.0, board, lines[n]);
      assert p.1 + a.1 + q.1 == p.1 + (a.1 + q.1);
    }
  }

  /** A stretch of status lines only ever touches the polled board's row. */
  lemma {:induction false} LinesTouchOnlyPolledBoard(t: Table, board: nat, lines: seq<string>)
    requires IsTable(t, |t|) && board < |t|
    ensures forall b :: 0 <= b < |t| && b != board ==> ApplyLines(t, board, lines).0[b] == t[b]
    decreases |lines|
  {
    if lines != [] {
      LinesTouchOnlyPolledBoard(t, board, lines[..|lines| - 1]);
    }
  }

  /** An empty or non-numeric line leaves the table alone and fires nothing. */
  lemma NonNumericLineIgnored(t: Table, board: nat, line: string)
    requires IsTable(t, |t|) && board < |t|
    requires !IsIntLiteral(line)
    ensures ProcessLine(t, board, line) == (t, [])
  {
    ParseIntAccepts(line);
  }

  /** Re-delivering the same status line for the same board changes nothing and fires nothing. */
  lemma RedeliveryIsIdempotent(t: Table, board: nat, line: string)
    requires IsTable(t, |t|) && board < |t|
    ensures var once := ProcessLine(t, board, line).0;
      ProcessLine(once, board, line) == (once, [])
  {
    var once := ProcessLine(t, board, line).0;
    match ParseInt(line)
    case None =>
    case Some(bits) =>
      var row := DecodeRow(bits);
      assert once[board] == row;
      assert once[board := row] == once;
      DiffSame(board, row);
  }

  /**
   * After a status line for the polled board, relay r holds bit r of the
   * number; a callback (board, r, previous, new) fires for that relay exactly
   * once when the cached value differed, and not at all otherwise.
   */
  lemma ResponseSetsRelay(t: Table, board: nat, line: string, r: nat)
    requires IsTable(t, |t|) && board < |t| && r < RelaysPerBoard
    requires ParseInt(line).Some?
    ensures var p := ProcessLine(t, board, line);
      var now := OfBool(Bit(ParseInt(line).value, r));
      p.0[board][r] == now &&
      (t[board][r] != now ==> Change(board, r, t[board][r], now) in p.1) &&
      (t[board][r] == now ==> forall k :: 0 <= k < |p.1| ==> p.1[k].relay != r) &&
      (forall k, l :: 0 <= k < |p.1| && 0 <= l < |p.1| && p.1[k].relay == r == p.1[l].relay ==> k == l)
  {
    var p := ProcessLine(t, board, line);
    var row := DecodeRow(ParseInt(line).value);
    assert p.0[board] == row;
    assert p.1 == Diff(board, t[board], row);
    DiffExact(board, t[board], row);
  }

  /**
   * Board A of a one-board table answers "0" and then "1": the first line
   * reports every relay going from Unknown to Off, in relay order; the
   * second reports relay 0 alone, going from Off to On.
   *
   * The table, board and lines are parameters fixed by the precondition
   * rather than literals in the body: the verifier unfolds calls whose
   * arguments are all literals eagerly, and with `InitialTable(1)`, "0" and
   * "1" written inline this proof runs out of its resource budget.
   */
  lemma ZeroThenOne(t: Table, board: nat, zero: string, one: string)
    requires t == InitialTable(1) && board == 0 && zero == "0" && one == "1"
    ensures var p := ProcessLine(t, board, zero);
      var q := ProcessLine(p.0, board, one);
      p.0 == [seq(RelaysPerBoard, _ => Off)] &&
      p.1 == seq(RelaysPerBoard, r requires 0 <= r < RelaysPerBoard => Change(0, r, Unknown, Off)) &&
      q.1 == [Change(0, 0, Off, On)] &&
      q.0 == [[On, Off, Off, Off, Off, Off, Off, Off]]
  {
    ParseIntDecimal(0);
    ParseIntDecimal(1);
    assert Decimal(0) == "0" && Decimal(1) == "1";
    var off := seq(RelaysPerBoard, _ => Off);
    forall r | 0 <= r < RelaysPerBoard
      ensures !Bit(0, r)
    {
    }
    assert DecodeRow(0) == off;
    assert t[0] == seq(RelaysPerBoard, _ => Unknown);
    DiffAllDiffer(board, t[0], off);
    var p := ProcessLine(t, board, zero);
    assert p.0 == [off];
    var row := [On, Off, Off, Off, Off, Off, Off, Off];
    forall r | 1 <= r < RelaysPerBoard
      ensures !Bit(1, r)
    {
      OneBelowPow2(r);
    }
    assert Bit(1, 0);
    assert DecodeRow(1) == row;
    DiffOneDiffers(board, off, row, 0);
  }
}

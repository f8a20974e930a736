/**
 * `_update_state` and `_processReceivedData` of pencompy/pencompy.py exactly
 * as they are written, with the two defects in `_update_state`: the guard
 * returns early for every valid relay, and the callback is passed the name
 * `relay`, which is not defined in that method.  The rest of the model uses
 * the corrected `RelayTable.UpdateCell`; the lemmas here exhibit where the
 * two differ.
 */
module SourceDefects {
  import opened Wrappers
  import opened Wire
  import opened RelayTable

  /** What a call ends with: a table, or the exception that escapes it. */
  datatype Outcome = Returned(t: Table) | IndexError | NameError

  /**
   * `_update_state` as written.  A valid `addr` returns at once; any other
   * `addr` indexes the row the Python way (-8..-1 count from the end, all
   * else raises IndexError); a changed value with a callback evaluates the
   * undefined name `relay` and raises NameError before the write.
   */
  function UpdateStateAsWritten(t: Table, board: nat, addr: int, newState: bool, hasCallback: bool): (o: Outcome)
    requires IsTable(t, |t|) && board < |t|
    ensures o.Returned? ==> IsTable(o.t, |t|)
    ensures o.NameError? ==> hasCallback
    ensures o.IndexError? <==> !(-(RelaysPerBoard as int) <= addr < RelaysPerBoard)
  {
    if 0 <= addr < RelaysPerBoard then Returned(t)
    else if -(RelaysPerBoard as int) <= addr < 0 then
      var i := RelaysPerBoard + addr;
      if t[board][i] != OfBool(newState) then
        if hasCallback then NameError
        else Returned(t[board := t[board][i := OfBool(newState)]])
      else Returned(t)
    else IndexError
  }

  /**
   * The relay loop of `_processReceivedData` as written, from relay `relay`
   * on: each relay calls `UpdateStateAsWritten` with its bit, and an
   * exception ends the loop and escapes (only ValueError is caught).
   */
  function RelaysAsWritten(t: Table, board: nat, bits: int, relay: nat, hasCallback: bool): (o: Outcome)
    requires IsTable(t, |t|) && board < |t| && relay <= RelaysPerBoard
    ensures o.Returned? ==> IsTable(o.t, |t|)
    decreases RelaysPerBoard - relay
  {
    if relay == RelaysPerBoard then Returned(t)
    else
      match UpdateStateAsWritten(t, board, relay, Bit(bits, relay), hasCallback)
      case Returned(t') => RelaysAsWritten(t', board, bits, relay + 1, hasCallback)
      case IndexError => IndexError
      case NameError => NameError
  }

  /** `_processReceivedData` as written, for the polled board `board`. */
  function ProcessLineAsWritten(t: Table, board: nat, line: string, hasCallback: bool): (o: Outcome)
    requires IsTable(t, |t|) && board < |t|
    ensures o.Returned? ==> IsTable(o.t, |t|)
  {
    if |line| > 0 then
      match ParseInt(line)
      case None => Returned(t)
      case Some(bits) => RelaysAsWritten(t, board, bits, 0, hasCallback)
    else Returned(t)
  }

  /** As written, the relay loop leaves the table as it found it, whatever the bits. */
  lemma {:induction false} RelaysAsWrittenChangeNothing(t: Table, board: nat, bits: int, relay: nat, hasCallback: bool)
    requires IsTable(t, |t|) && board < |t| && relay <= RelaysPerBoard
    ensures RelaysAsWritten(t, board, bits, relay, hasCallback) == Returned(t)
    decreases RelaysPerBoard - relay
  {
    if relay < RelaysPerBoard {
      RelaysAsWrittenChangeNothing(t, board, bits, relay + 1, hasCallback);
    }
  }

  /**
   * As written, no status line ever reaches the table: every line leaves it
   * unchanged and raises nothing, so `get` keeps answering -1.
   */
  lemma StatusIgnoredAsWritten(t: Table, board: nat, line: string, hasCallback: bool)
    requires IsTable(t, |t|) && board < |t|
    ensures ProcessLineAsWritten(t, board, line, hasCallback) == Returned(t)
  {
    if |line| > 0 && ParseInt(line).Some? {
      RelaysAsWrittenChangeNothing(t, board, ParseInt(line).value, 0, hasCallback);
    }
  }

  /**
   * The line "1" for board A of a fresh one-board table: the intended update
   * turns relay 0 On and reports it, the code as written keeps it Unknown.
   */
  lemma InvertedGuardExample()
    ensures ProcessLineAsWritten(InitialTable(1), 0, "1", true) == Returned(InitialTable(1))
    ensures InitialTable(1)[0][0] == Unknown
    ensures ProcessLine(InitialTable(1), 0, "1").0[0][0] == On
    ensures Change(0, 0, Unknown, On) in ProcessLine(InitialTable(1), 0, "1").1
  {
    StatusIgnoredAsWritten(InitialTable(1), 0, "1", true);
    ParseIntDecimal(1);
    assert Decimal(1) == "1";
    assert Bit(1, 0);
    ResponseSetsRelay(InitialTable(1), 0, "1", 0);
  }

  /**
   * The only calls that get past the inverted guard, a negative `addr`, raise
   * NameError as soon as a callback is due; the corrected update reports the
   * same relay to the callback by its index.
   */
  lemma UndefinedNameExample()
    ensures UpdateStateAsWritten(InitialTable(1), 0, -1, false, true) == NameError
    ensures UpdateCell(InitialTable(1), 0, 7, Off).1 == [Change(0, 7, Unknown, Off)]
  {
  }

  /**
   * Wherever the code as written returns for a valid relay, the corrected
   * update writes the cell: the two agree only on relays already holding
   * the new value.
   */
  lemma GuardSkipsValidRelays(t: Table, board: nat, addr: nat, newState: bool, hasCallback: bool)
    requires IsTable(t, |t|) && board < |t| && addr < RelaysPerBoard
    ensures UpdateStateAsWritten(t, board, addr, newState, hasCallback) == Returned(t)
    ensures UpdateCell(t, board, addr, OfBool(newState)).0 == t <==> t[board][addr] == OfBool(newState)
  {
    if t[board][addr] != OfBool(newState) {
      assert UpdateCell(t, board, addr, OfBool(newState)).0[board][addr] != t[board][addr];
    }
  }
}

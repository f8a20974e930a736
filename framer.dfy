/**
 * The reader loop's line framing in `Pencompy.run` (pencompy/pencompy.py):
 * bytes arrive one at a time, are collected until a carriage return, and the
 * collected text, stripped of surrounding whitespace, goes to the decoder.
 */
module Framer {

  type Byte = x: int | 0 <= x < 256

  /** The byte that ends a status line. */
  const CR: Byte := 13

  /** Python's str.isspace, which `strip()` removes from both ends. */
  predicate IsSpace(c: char)
  {
    var k := c as int;
    k == 0x20 || 0x09 <= k <= 0x0D || 0x1C <= k <= 0x1F || k == 0x85 || k == 0xA0 ||
    k == 0x1680 || 0x2000 <= k <= 0x200A || k == 0x2028 || k == 0x2029 ||
    k == 0x202F || k == 0x205F || k == 0x3000
  }

  function StripStart(s: string): string
    decreases |s|
  {
    if |s| > 0 && IsSpace(s[0]) then StripStart(s[1..]) else s
  }

  function StripEnd(s: string): string
    decreases |s|
  {
    if |s| > 0 && IsSpace(s[|s| - 1]) then StripEnd(s[..|s| - 1]) else s
  }

  /** `str.strip()`. */
  function Strip(s: string): string
  {
    StripEnd(StripStart(s))
  }

  lemma {:induction false} StripStartSpec(s: string)
    ensures var r := StripStart(s);
      |r| <= |s| && r == s[|s| - |r|..] &&
      (forall k :: 0 <= k < |s| - |r| ==> IsSpace(s[k])) &&
      (|r| > 0 ==> !IsSpace(r[0]))
    decreases |s|
  {
    if |s| > 0 && IsSpace(s[0]) {
      StripStartSpec(s[1..]);
    }
  }

  lemma {:induction false} StripEndSpec(s: string)
    ensures var r := StripEnd(s);
      |r| <= |s| && r == s[..|r|] &&
      (forall k :: |r| <= k < |s| ==> IsSpace(s[k])) &&
      (|r| > 0 ==> !IsSpace(r[|r| - 1]))
    decreases |s|
  {
    if |s| > 0 && IsSpace(s[|s| - 1]) {
      StripEndSpec(s[..|s| - 1]);
    }
  }

  /**
   * What strip() leaves is the text between the leading and the trailing
   * whitespace: a stretch s[i..j] with only spaces outside it, and no space
   * at either end of it.
   */
  lemma StripSpec(s: string) returns (i: nat, j: nat)
    ensures i <= j <= |s| && Strip(s) == s[i..j]
    ensures forall k :: 0 <= k < i ==> IsSpace(s[k])
    ensures forall k :: j <= k < |s| ==> IsSpace(s[k])
    ensures i < j ==> !IsSpace(s[i]) && !IsSpace(s[j - 1])
  {
    var t := StripStart(s);
    StripStartSpec(s);
    StripEndSpec(t);
    i := |s| - |t|;
    j := i + |StripEnd(t)|;
    assert t == s[i..];
    assert StripEnd(t) == t[..j - i];
  }

  /**
   * What the reader makes of a stretch of input: the stripped lines it hands
   * to the decoder, the text still pending, and whether the loop is still
   * running (a byte above 0x7F makes `decode('utf-8')` raise, which ends it).
   */
  datatype Framed = Framed(lines: seq<string>, pending: string, alive: bool)

  function Frame(pending: string, input: seq<Byte>): Framed
    decreases |input|
  {
    if input == [] then Framed([], pending, true)
    else if input[0] == CR then
      var f := Frame("", input[1..]);
      Framed([Strip(pending)] + f.lines, f.pending, f.alive)
    else if input[0] < 128 then Frame(pending + [input[0] as char], input[1..])
    else Framed([], pending, false)
  }

  /** The lines already handed over, in front of what the rest of the input yields. */
  function After(done: seq<string>, f: Framed): Framed
  {
    Framed(done + f.lines, f.pending, f.alive)
  }

  /** One byte of input: Frame's definition unfolded once. */
  lemma FrameStep(pending: string, input: seq<Byte>)
    requires |input| > 0
    ensures Frame(pending, input) ==
      if input[0] == CR then After([Strip(pending)], Frame("", input[1..]))
      else if input[0] < 128 then Frame(pending + [input[0] as char], input[1..])
      else Framed([], pending, false)
  {
  }

  /** No carriage return ever reaches the decoder or stays pending. */
  lemma {:induction false} FrameDropsCR(pending: string, input: seq<Byte>)
    requires '\r' !in pending
    ensures var f := Frame(pending, input);
      '\r' !in f.pending && forall k :: 0 <= k < |f.lines| ==> '\r' !in f.lines[k]
    decreases |input|
  {
    if input == [] {
    } else if input[0] == CR {
      FrameDropsCR("", input[1..]);
      var i, j := StripSpec(pending);
      assert forall k :: i <= k < j ==> pending[k] != '\r';
    } else if input[0] < 128 {
      assert (input[0] as char) != '\r';
      FrameDropsCR(pending + [input[0] as char], input[1..]);
    }
  }

  // ------------------------------------------------------------ round trip

  predicate IsAscii(s: string) { forall i :: 0 <= i < |s| ==> s[i] as int < 128 }

  /** The bytes of an ASCII line. */
  function AsBytes(s: string): (bs: seq<Byte>)
    requires IsAscii(s)
    ensures |bs| == |s|
    ensures forall i :: 0 <= i < |s| ==> bs[i] == s[i] as int
  {
    if s == [] then [] else [s[0] as int as Byte] + AsBytes(s[1..])
  }

  /** A line the controller can send: ASCII without a carriage return. */
  predicate IsLineText(s: string) { IsAscii(s) && '\r' !in s }

  /** The controller's side: each line followed by a carriage return. */
  function Unframe(lines: seq<string>): seq<Byte>
    requires forall k :: 0 <= k < |lines| ==> IsLineText(lines[k])
  {
    if lines == [] then []
    else
      assert IsLineText(lines[0]);
      AsBytes(lines[0]) + [CR] + Unframe(lines[1..])
  }

  function StripAll(lines: seq<string>): (r: seq<string>)
    ensures |r| == |lines| && forall k :: 0 <= k < |lines| ==> r[k] == Strip(lines[k])
  {
    if lines == [] then [] else [Strip(lines[0])] + StripAll(lines[1..])
  }

  /** An ASCII byte other than a carriage return is appended to the pending text. */
  lemma FrameCollect(pending: string, input: seq<Byte>)
    requires |input| > 0 && input[0] != CR && input[0] < 128
    ensures Frame(pending, input) == Frame(pending + [input[0] as char], input[1..])
  {
  }

  /** Text without a carriage return is only collected. */
  lemma {:induction false} FrameText(pending: string, s: string, more: seq<Byte>)
    requires IsLineText(s)
    ensures Frame(pending, AsBytes(s) + more) == Frame(pending + s, more)
    decreases |s|
  {
    if s != [] {
      var input := AsBytes(s) + more;
      assert input[0] == s[0] as int;
      assert s[0] != '\r';
      assert input[1..] == AsBytes(s[1..]) + more;
      FrameCollect(pending, input);
      assert '\r' !in s[1..] by {
        assert forall k :: 0 <= k < |s| - 1 ==> s[1..][k] == s[k + 1];
      }
      FrameText(pending + [s[0]], s[1..], more);
      assert pending + [s[0]] + s[1..] == pending + s;
    } else {
      assert AsBytes(s) + more == more;
      assert pending + s == pending;
    }
  }

  /** A carriage return hands over the stripped pending text and starts afresh. */
  lemma FrameAtCR(pending: string, tail: seq<Byte>)
    ensures Frame(pending, [CR] + tail) == After([Strip(pending)], Frame("", tail))
  {
    assert ([CR] + tail)[1..] == tail;
  }

  /**
   * Framing round trip: lines sent with a carriage return after each come
   * out stripped and in order, and the text after the last carriage return
   * stays pending.
   */
  lemma {:induction false} FrameRoundTrip(lines: seq<string>, rest: string)
    requires forall k :: 0 <= k < |lines| ==> IsLineText(lines[k])
    requires IsLineText(rest)
    ensures Frame("", Unframe(lines) + AsBytes(rest)) == Framed(StripAll(lines), rest, true)
    decreases |lines|
  {
    if lines == [] {
      FrameText("", rest, []);
      assert Unframe(lines) + AsBytes(rest) == AsBytes(rest) + [];
      assert "" + rest == rest;
    } else {
      var tail := Unframe(lines[1..]) + AsBytes(rest);
      FrameRoundTrip(lines[1..], rest);
      UnframeFirst(lines, rest);
      FrameFirstLine(lines[0], tail);
    }
  }

  lemma UnframeFirst(lines: seq<string>, rest: string)
    requires |lines| > 0
    requires forall k :: 0 <= k < |lines| ==> IsLineText(lines[k])
    requires IsLineText(rest)
    ensures Unframe(lines) + AsBytes(rest) == AsBytes(lines[0]) + ([CR] + (Unframe(lines[1..]) + AsBytes(rest)))
    ensures StripAll(lines) == [Strip(lines[0])] + StripAll(lines[1..])
  {
  }

  lemma FrameFirstLine(line: string, tail: seq<Byte>)
    requires IsLineText(line)
    ensures Frame("", AsBytes(line) + ([CR] + tail)) == After([Strip(line)], Frame("", tail))
  {
    FrameText("", line, [CR] + tail);
    assert "" + line == line;
    FrameAtCR(line, tail);
  }
}

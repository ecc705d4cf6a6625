/** The splitter of worker output: fpm/fpm_stdio.c, fpm_stdio_child_said. */
module Stdio {
  import opened Basics

  const NEWLINE: Byte := 10
  const MAX_BUF_SIZE := 1024
  const MAX_LINE := MAX_BUF_SIZE - 1

  /** One message; `newline` tells whether a newline ended it. */
  datatype Message = Message(text: Bytes, newline: bool)

  /** Where the first newline is, or the length. */
  function FirstNewline(s: Bytes): (k: nat)
    ensures k <= |s| && (forall i :: 0 <= i < k ==> s[i] != NEWLINE) && (k < |s| ==> s[k] == NEWLINE)
  {
    if s == [] || s[0] == NEWLINE then 0 else 1 + FirstNewline(s[1..])
  }

  function Original(m: Message): Bytes {
    m.text + (if m.newline then [NEWLINE] else [])
  }

  /** The bytes that messages stand for. */
  function Restore(ms: seq<Message>): Bytes {
    if ms == [] then [] else Original(ms[0]) + Restore(ms[1..])
  }

  /** A message that could not be longer: it ends in a newline, or it fills the buffer. */
  predicate Complete(m: Message) {
    && NoNewline(m.text)
    && if m.newline then |m.text| < MAX_LINE else |m.text| == MAX_LINE
  }

  predicate AllComplete(ms: seq<Message>) {
    forall i :: 0 <= i < |ms| ==> Complete(ms[i])
  }

  /** What is left over at the end. */
  predicate Partial(m: Message) {
    && NoNewline(m.text)
    && !m.newline && 0 < |m.text| < MAX_LINE
  }

  /** All messages are complete, except that the last one may be partial. */
  predicate WellSplit(ms: seq<Message>) {
    && AllComplete(if ms == [] then [] else ms[..|ms| - 1])
    && (ms != [] ==> Complete(ms[|ms| - 1]) || Partial(ms[|ms| - 1]))
  }

  /** The first message of a byte string, and the bytes behind it. */
  function First(s: Bytes): (m: Message)
    requires s != []
  {
    var k := FirstNewline(s);
    if k < MAX_LINE && k < |s| then Message(s[..k], true)
    else if |s| >= MAX_LINE then Message(s[..MAX_LINE], false)
    else Message(s, false)
  }

  lemma {:induction false} FirstFits(s: Bytes)
    requires s != []
    ensures var m := First(s);
      && 0 < |Original(m)| <= |s| && s[..|Original(m)|] == Original(m)
      && (Complete(m) || (Partial(m) && |Original(m)| == |s|))
  {
  }

  function Split(s: Bytes): (ms: seq<Message>)
    decreases |s|
  {
    if s == [] then [] else
      FirstFits(s);
      [First(s)] + Split(s[|Original(First(s))|..])
  }

  /** Restoring the newlines gives the bytes back, and every message but the last is complete. */
  lemma {:induction false} SplitRestores(s: Bytes)
    ensures Restore(Split(s)) == s && WellSplit(Split(s))
    decreases |s|
  {
    if s != [] {
      FirstFits(s);
      var m, rest := First(s), s[|Original(First(s))|..];
      SplitRestores(rest);
      RestoreCons(m, Split(rest));
      assert s == Original(m) + rest;
      if rest == [] {
        assert [m] + Split(rest) == [m] && [m][..0] == [];
      } else {
        WellSplitCons(m, Split(rest));
      }
    }
  }

  lemma {:induction false} RestoreCons(m: Message, ms: seq<Message>)
    ensures Restore([m] + ms) == Original(m) + Restore(ms)
  {
    assert ([m] + ms)[1..] == ms;
  }

  lemma {:induction false} WellSplitCons(m: Message, ms: seq<Message>)
    requires Complete(m) && WellSplit(ms)
    ensures WellSplit([m] + ms)
  {
    var all := [m] + ms;
    if ms != [] {
      assert all[..|all| - 1] == [m] + ms[..|ms| - 1];
      assert all[|all| - 1] == ms[|ms| - 1];
    } else {
      assert all[..|all| - 1] == [] && all[|all| - 1] == m;
    }
  }

  lemma {:induction false} NewlineBehind(text: Bytes, t: Bytes)
    requires forall i :: 0 <= i < |text| ==> text[i] != NEWLINE
    ensures FirstNewline(text + t) == |text| + FirstNewline(t)
    decreases |text|
  {
    if text == [] {
      assert text + t == t;
    } else {
      assert (text + t)[1..] == text[1..] + t;
      NewlineBehind(text[1..], t);
    }
  }

  /** A complete message at the front is split off, whatever follows. */
  lemma {:induction false} SplitOne(m: Message, t: Bytes)
    requires Complete(m)
    ensures Split(Original(m) + t) == [m] + Split(t)
  {
    var s := Original(m) + t;
    if m.newline {
      NewlineBehind(m.text, [NEWLINE] + t);
      assert s == m.text + ([NEWLINE] + t);
      assert s[..|m.text|] == m.text;
    } else {
      NewlineBehind(m.text, t);
      assert s == m.text + t;
      assert s[..MAX_LINE] == m.text;
    }
    assert First(s) == m;
    assert s[|Original(m)|..] == t;
  }

  lemma {:induction false} SplitComplete(ms: seq<Message>, t: Bytes)
    requires AllComplete(ms)
    ensures Split(Restore(ms) + t) == ms + Split(t)
    decreases |ms|
  {
    if ms == [] {
      assert Restore(ms) + t == t;
    } else {
      var u := Restore(ms[1..]) + t;
      SplitComplete(ms[1..], t);
      SplitOne(ms[0], u);
      Assoc(Original(ms[0]), Restore(ms[1..]), t);
      Assoc([ms[0]], ms[1..], Split(t));
      assert ms == [ms[0]] + ms[1..];
    }
  }

  lemma {:induction false} SplitPartial(m: Message)
    requires Partial(m)
    ensures Split(m.text) == [m]
  {
    assert First(m.text) == m && m.text[|Original(m)|..] == [];
  }

  lemma {:induction false} RestoreSnoc(ms: seq<Message>, m: Message)
    ensures Restore(ms + [m]) == Restore(ms) + Original(m)
    decreases |ms|
  {
    if ms == [] {
      assert ms + [m] == [m] && [m][1..] == [];
    } else {
      assert (ms + [m])[1..] == ms[1..] + [m];
      RestoreSnoc(ms[1..], m);
      assert Original(ms[0]) + (Restore(ms[1..]) + Original(m)) == Original(ms[0]) + Restore(ms[1..]) + Original(m);
    }
  }

  /** There is only one way to split bytes like this, so it cannot depend on how they were read. */
  lemma {:induction false} SplitIsUnique(ms: seq<Message>)
    requires WellSplit(ms)
    ensures Split(Restore(ms)) == ms
  {
    if ms != [] {
      var front, last := ms[..|ms| - 1], ms[|ms| - 1];
      assert ms == front + [last];
      RestoreSnoc(front, last);
      SplitComplete(front, Original(last));
      if Complete(last) {
        SplitOne(last, []);
        assert Original(last) + [] == Original(last);
      } else {
        assert Original(last) == last.text;
        SplitPartial(last);
      }
    }
  }

  // ---- The handler --------------------------------------------------------------------------

  type Positive = n: int | n > 0 witness 1

  /**
   * How read(2) answers: so many bytes, as far as there are any and room for them; EAGAIN, which it also is when there
   * are none; the end of the pipe; or an error.
   */
  datatype Reading = Ready(most: Positive) | WouldBlock | AtEnd | Failed

  /** The end of the pipe: the bytes a worker has written and nobody has read. */
  class Pipe {
    const readings: nat -> Reading
    var asked: nat              // readings so far
    var incoming: Bytes
    var fd: int                 // -1 once it is closed

    constructor (incoming: Bytes, fd: int, readings: nat -> Reading)
      ensures this.incoming == incoming && this.fd == fd && this.readings == readings && asked == 0
    {
      this.incoming, this.fd, this.readings, this.asked := incoming, fd, readings, 0;
    }

    /** read(2): part of what is there; 0 at the end; negative without data (`again`) or on an error. */
    method Read(count: nat) returns (res: int, again: bool, data: Bytes)
      requires count > 0
      modifies this`incoming, this`asked
      ensures asked == old(asked) + 1
      ensures var r := readings(old(asked));
        if r.Ready? && old(incoming) != [] then
          && 0 < res == Least(r.most, count, |old(incoming)|)
          && data == old(incoming)[..res] && incoming == old(incoming)[res..]
        else
          && (res == 0 <==> r.AtEnd?) && res <= 0 && (res < 0 ==> (again <==> !r.Failed?))
          && data == [] && incoming == old(incoming)
    {
      var r := readings(asked);
      asked, data := asked + 1, [];
      if r.Ready? && incoming != [] {
        res, again := Least(r.most, count, |incoming|), false;
        data, incoming := incoming[..res], incoming[res..];
        return;
      }
      res, again := if r.AtEnd? then 0 else -1, !r.Failed?;
    }
  }

  function Least(a: int, b: int, c: int): int {
    if a <= b && a <= c then a else if b <= c then b else c
  }

  /** strchr in a NUL-terminated buffer without another NUL: the place of the newline, or -1. */
  method FindNewline(buf: array<Byte>, n: nat) returns (nl: int)
    requires n < buf.Length && buf[n] == 0 && forall i :: 0 <= i < n ==> buf[i] != 0
    ensures -1 <= nl < n && (nl >= 0 ==> buf[nl] == NEWLINE)
    ensures NoNewline(buf[..if nl >= 0 then nl else n])
  {
    nl := 0;
    while buf[nl] != 0 && buf[nl] != NEWLINE
      invariant 0 <= nl <= n && forall i :: 0 <= i < nl ==> buf[i] != NEWLINE
      decreases n - nl
    {
      nl := nl + 1;
    }
    if buf[nl] == 0 {
      nl := -1;
    }
  }

  predicate NoNul(s: Bytes) {
    forall i :: 0 <= i < |s| ==> s[i] != 0
  }

  predicate NoNewline(s: Bytes) {
    forall i :: 0 <= i < |s| ==> s[i] != NEWLINE
  }

  /** memmove: what follows the newline comes to the front. */
  method Shift(buf: array<Byte>, inBuf: nat, nl: nat) returns (n: nat)
    requires nl < inBuf <= buf.Length && buf[nl] == NEWLINE
    modifies buf
    ensures n == inBuf - (1 + nl) && old(buf[..inBuf]) == old(buf[..nl]) + [NEWLINE] + buf[..n]
  {
    ghost var held := buf[..inBuf];
    n := inBuf - (1 + nl);
    forall i | 0 <= i < n {
      buf[i] := buf[i + 1 + nl];
    }
    LineAndRest(held, nl, buf[..n]);
  }

  lemma {:induction false} LineAndRest(held: Bytes, nl: nat, rest: Bytes)
    requires nl < |held| && held[nl] == NEWLINE && |rest| == |held| - (1 + nl)
    requires forall i :: 0 <= i < |rest| ==> rest[i] == held[i + 1 + nl]
    ensures held == held[..nl] + [NEWLINE] + rest
  {
  }

  /** The reading half of the loop; at the end of the pipe or on an error the descriptor is closed. */
  method Fill(pipe: Pipe, buf: array<Byte>, inBuf: nat) returns (more: bool, n: nat)
    requires buf.Length == MAX_BUF_SIZE && inBuf < MAX_LINE
    modifies pipe, buf
    ensures inBuf <= n <= MAX_LINE && |pipe.incoming| == |old(pipe.incoming)| - (n - inBuf)
    ensures more <==> n > inBuf
    ensures buf[..n] == old(buf[..inBuf]) + old(pipe.incoming)[..n - inBuf]
    ensures pipe.incoming == old(pipe.incoming)[n - inBuf..] && pipe.asked == old(pipe.asked) + 1
    ensures var r := pipe.readings(old(pipe.asked));
      && (more <==> r.Ready? && old(pipe.incoming) != [])
      && pipe.fd == if r.AtEnd? || r.Failed? then -1 else old(pipe.fd)
  {
    var res, again, data := pipe.Read(MAX_BUF_SIZE - 1 - inBuf);
    if res <= 0 {
      if !(res < 0 && again) {
        pipe.fd := -1;
      }
      return false, inBuf;
    }
    forall i | 0 <= i < res {
      buf[inBuf + i] := data[i];
    }
    return true, inBuf + res;
  }

  /** The writing half: the first line, or everything when no more fits or comes; none while a line may go on. */
  method Say(buf: array<Byte>, inBuf: nat, fifoIn: bool) returns (said: seq<Message>, n: nat)
    requires buf.Length == MAX_BUF_SIZE && 0 < inBuf <= MAX_LINE && NoNul(buf[..inBuf])
    modifies buf
    ensures n <= inBuf && |said| <= 1
    ensures said == [] ==> n == inBuf && buf[..n] == old(buf[..n]) && fifoIn && n < MAX_LINE
    ensures |said| == 1 ==> n < inBuf && old(buf[..inBuf]) == Original(said[0]) + buf[..n]
    ensures |said| == 1 ==> Complete(said[0]) || (Partial(said[0]) && !fifoIn && n == 0)
  {
    ghost var held := buf[..inBuf];
    buf[inBuf] := 0;
    var shouldPrint := inBuf == MAX_BUF_SIZE - 1 || !fifoIn;
    assert buf[..inBuf] == held;
    assert forall i :: 0 <= i < inBuf ==> buf[i] == held[i];
    var nl := FindNewline(buf, inBuf);
    if nl == -1 && !shouldPrint {
      return [], inBuf;
    }
    if nl == -1 {
      said := [Message(buf[..inBuf], false)];
      assert held == Original(said[0]) + buf[..0];
      return said, 0;
    }
    said := [Message(buf[..nl], true)];
    n := Shift(buf, inBuf, nl);
  }

  /** The writing half, behind the messages so far. */
  method SayOn(buf: array<Byte>, inBuf: nat, fifoIn: bool, messages: seq<Message>) returns (more: seq<Message>, n: nat)
    requires buf.Length == MAX_BUF_SIZE && 0 < inBuf <= MAX_LINE && NoNul(buf[..inBuf]) && AllComplete(messages)
    modifies buf
    ensures n <= inBuf && (n == inBuf ==> fifoIn && n < MAX_LINE)
    ensures Restore(more) + buf[..n] == Restore(messages) + old(buf[..inBuf])
    ensures AllComplete(more) || (WellSplit(more) && n == 0 && !fifoIn)
  {
    var said;
    said, n := Say(buf, inBuf, fifoIn);
    if said == [] {
      return messages, n;
    }
    assert said == [said[0]];
    RestoreSnoc(messages, said[0]);
    Assoc(Restore(messages), Original(said[0]), buf[..n]);
    WellSplitSnoc(messages, said[0]);
    more := messages + said;
  }

  /** The same for what is held of all bytes that there are. */
  method SayHeld(buf: array<Byte>, inBuf: nat, fifoIn: bool, messages: seq<Message>, ghost consumed: Bytes,
      ghost rest: Bytes, ghost all: Bytes)
    returns (more: seq<Message>, n: nat)
    requires buf.Length == MAX_BUF_SIZE && 0 < inBuf <= MAX_LINE && AllComplete(messages)
    requires NoNul(all) && all == consumed + rest && consumed == Restore(messages) + buf[..inBuf]
    modifies buf
    ensures n <= inBuf && (n == inBuf ==> fifoIn && n < MAX_LINE) && consumed == Restore(more) + buf[..n]
    ensures AllComplete(more) || (WellSplit(more) && n == 0 && !fifoIn)
  {
    HeldFromAll(all, consumed, rest, Restore(messages), buf[..inBuf]);
    more, n := SayOn(buf, inBuf, fifoIn, messages);
  }

  /**
   * All readings but the last one delivered something. The last one was not for want of room: either nothing is left,
   * or it was EAGAIN; or it was the end of the pipe or an error, and then, and only then, the descriptor is closed.
   */
  ghost predicate EverythingRead(readings: nat -> Reading, from: nat, upto: nat, rest: Bytes, fd0: int, fd: int) {
    && from < upto && (forall n :: from <= n < upto - 1 ==> readings(n).Ready?)
    && match readings(upto - 1)
       case Ready(_) => rest == [] && fd == fd0
       case WouldBlock => fd == fd0
       case AtEnd => fd == -1
       case Failed => fd == -1
  }

  /** While there is more to read, all readings delivered something; then the last one did not. */
  ghost predicate Progress(readings: nat -> Reading, from: nat, upto: nat, rest: Bytes, fd0: int, fd: int, more: bool) {
    if more then from <= upto && fd == fd0 && forall n :: from <= n < upto ==> readings(n).Ready?
    else EverythingRead(readings, from, upto, rest, fd0, fd)
  }

  /** The reading half, behind what was said so far; `first` is the first reading, and the pipe was fd0. */
  method FillOn(pipe: Pipe, buf: array<Byte>, inBuf: nat, ghost said: Bytes, ghost consumed: Bytes, ghost all: Bytes,
      ghost first: nat, ghost fd0: int)
    returns (more: bool, n: nat, ghost consumed': Bytes)
    requires buf.Length == MAX_BUF_SIZE && inBuf < MAX_LINE
    requires all == consumed + pipe.incoming && consumed == said + buf[..inBuf]
    requires Progress(pipe.readings, first, pipe.asked, pipe.incoming, fd0, pipe.fd, true)
    modifies pipe, buf
    ensures inBuf <= n <= MAX_LINE && (more <==> n > inBuf)
    ensures |pipe.incoming| == |old(pipe.incoming)| - (n - inBuf)
    ensures all == consumed' + pipe.incoming && consumed' == said + buf[..n]
    ensures Progress(pipe.readings, first, pipe.asked, pipe.incoming, fd0, pipe.fd, more)
  {
    ghost var held, coming := buf[..inBuf], pipe.incoming;
    more, n := Fill(pipe, buf, inBuf);
    ghost var arrived := coming[..n - inBuf];
    Assoc(said, held, arrived);
    assert coming == arrived + pipe.incoming;
    Assoc(consumed, arrived, pipe.incoming);
    consumed' := consumed + arrived;
  }

  /** The messages after the loop. */
  lemma {:induction false} AllSaid(messages: seq<Message>, all: Bytes, consumed: Bytes, rest: Bytes,
      held: Bytes)
    requires AllComplete(messages) || WellSplit(messages)
    requires all == consumed + rest && consumed == Restore(messages) + held && held == []
    ensures var read := all[..|all| - |rest|]; messages == Split(read) && all == read + rest
  {
    WellSplitAll(messages);
    SplitIsUnique(messages);
    assert consumed == Restore(messages);
    assert consumed == all[..|all| - |rest|];
  }

  /**
   * fpm_stdio_child_said: however the bytes that are read now arrive, the messages are those of Split.
   * There is always room to read into; it reads until nothing comes, and the descriptor is closed if and only if that
   * was the end of the pipe or an error.
   */
  method ChildSaid(pipe: Pipe) returns (messages: seq<Message>)
    requires NoNul(pipe.incoming)
    modifies pipe
    ensures |pipe.incoming| <= |old(pipe.incoming)|
    ensures var consumed := old(pipe.incoming)[..|old(pipe.incoming)| - |pipe.incoming|];
      messages == Split(consumed) && old(pipe.incoming) == consumed + pipe.incoming
    ensures EverythingRead(pipe.readings, old(pipe.asked), pipe.asked, pipe.incoming, old(pipe.fd), pipe.fd)
  {
    var buf := new Byte[MAX_BUF_SIZE];
    var fifoIn, fifoOut, inBuf: nat := true, true, 0;
    ghost var all, consumed, first, fd0 := pipe.incoming, [], pipe.asked, pipe.fd;
    messages := [];
    while fifoIn || fifoOut
      invariant fresh(buf) && inBuf <= MAX_LINE && (fifoIn ==> inBuf < MAX_LINE && fifoOut) && (!fifoOut ==> inBuf == 0)
      invariant all == consumed + pipe.incoming
      invariant Progress(pipe.readings, first, pipe.asked, pipe.incoming, fd0, pipe.fd, fifoIn)
      invariant consumed == Restore(messages) + buf[..inBuf]
      invariant AllComplete(messages) || (WellSplit(messages) && inBuf == 0 && !fifoIn)
      decreases |pipe.incoming|, fifoIn, inBuf, fifoOut
    {
      if fifoIn {
        fifoIn, inBuf, consumed := FillOn(pipe, buf, inBuf, Restore(messages), consumed, all, first, fd0);
      }
      if fifoOut {
        if inBuf == 0 {
          fifoOut := false;
        } else {
          messages, inBuf := SayHeld(buf, inBuf, fifoIn, messages, consumed, pipe.incoming, all);
        }
      }
    }
    AllSaid(messages, all, consumed, pipe.incoming, buf[..inBuf]);
  }

  lemma {:induction false} HeldFromAll(all: Bytes, consumed: Bytes, rest: Bytes, before: Bytes, held: Bytes)
    requires NoNul(all) && all == consumed + rest && consumed == before + held
    ensures NoNul(held)
  {
    forall i | 0 <= i < |held| ensures held[i] != 0 {
      assert held[i] == all[|before| + i];
    }
  }

  lemma {:induction false} WellSplitSnoc(ms: seq<Message>, m: Message)
    requires AllComplete(ms) && (Complete(m) || Partial(m))
    ensures WellSplit(ms + [m]) && (Complete(m) ==> AllComplete(ms + [m]))
  {
    assert (ms + [m])[..|ms|] == ms;
  }

  lemma {:induction false} WellSplitAll(ms: seq<Message>)
    requires AllComplete(ms) || WellSplit(ms)
    ensures WellSplit(ms)
  {
  }
}

/**
  The Go server's JT/T 808 stream scanner. It looks for a 0x7E, takes the bytes
  up to the next 0x7E for a frame, checks their exclusive or while they are
  still escaped, and only then unescapes header and body. A rejected frame is
  scanned again from the byte after its first 0x7E.

  The scanner may read the byte at `maxPos`, one past the bytes it was given;
  when the buffer ends there the process panics. That outcome is `Crash` here.
 */
module Scanner {
  import opened Bytes

  datatype JTT808Msg = JTT808Msg(header: seq<Byte>, body: seq<Byte>)

  // ----- reading escaped bytes --------------------------------------------------

  /** `rest` is what follows the bytes read, `room` is how far `maxPos` then lies ahead. */
  datatype Read = Fault | Short | Got(data: seq<Byte>, rest: seq<Byte>, room: int)

  /**
    Reads `n` unescaped bytes from `t`, of which index `room` is the last that may be looked at;
    running past it, or a wrong escape, is Short and running past the buffer is Fault.
   */
  function ReadUnescaped(t: seq<Byte>, room: int, n: nat): (r: Read)
    ensures r.Got? ==> |r.data| == n && |r.rest| + n <= |t| && |t| - |r.rest| == room - r.room
    decreases n
  {
    if n == 0 then Got([], t, room)
    else if room < 0 then Short
    else if |t| == 0 then Fault
    else if t[0] != 0x7D then Cons([t[0]], ReadUnescaped(t[1..], room - 1, n - 1))
    else if room < 1 then Short
    else if |t| == 1 then Fault
    else if t[1] == 0x01 then Cons([0x7D], ReadUnescaped(t[2..], room - 2, n - 1))
    else if t[1] == 0x02 then Cons([0x7E], ReadUnescaped(t[2..], room - 2, n - 1))
    else Short
  }

  function Cons(d: seq<Byte>, r: Read): Read {
    if r.Got? then r.(data := d + r.data) else r
  }

  lemma ConsTwice(d: seq<Byte>, e: seq<Byte>, r: Read)
    ensures Cons(d, Cons(e, r)) == Cons(d + e, r)
  {
    if r.Got? {
      assert d + (e + r.data) == d + e + r.data;
    }
  }

  /** The loop that the original writes out for the header, its extension and the body. */
  method ReadLoop(b: seq<Byte>, start: nat, maxPos: nat, n: nat) returns (r: Read, next: nat)
    requires start <= |b|
    ensures r == ReadUnescaped(b[start..], maxPos - start, n)
    ensures r.Got? ==> next <= |b| && r.rest == b[next..] && r.room == maxPos - next
  {
    hide ReadUnescaped;
    var data, currIdx := [], start;
    ReadNothing(b[start..], maxPos - start);
    ConsNothing(ReadUnescaped(b[start..], maxPos - start, n));
    while true
      invariant start <= currIdx <= |b| && |data| <= n
      invariant ReadUnescaped(b[start..], maxPos - start, n) ==
                Cons(data, ReadUnescaped(b[currIdx..], maxPos - currIdx, n - |data|))
      decreases n - |data|
    {
      ReadNothing(b[currIdx..], maxPos - currIdx);
      if |data| == n {
        assert data + [] == data;
        return Got(data, b[currIdx..], maxPos - currIdx), currIdx;
      }
      ReadStep(b, currIdx, maxPos - currIdx, n - |data|);
      if currIdx > maxPos {
        return Short, currIdx;
      }
      if currIdx >= |b| {
        return Fault, currIdx;
      }
      if b[currIdx] == 0x7D {
        if currIdx + 1 > maxPos {
          return Short, currIdx;
        }
        if currIdx + 1 >= |b| {
          return Fault, currIdx;
        }
        ghost var later := ReadUnescaped(b[currIdx + 2..], maxPos - currIdx - 2, n - |data| - 1);
        if b[currIdx + 1] == 0x01 {
          ConsTwice(data, [0x7D], later);
          data := data + [0x7D];
        } else if b[currIdx + 1] == 0x02 {
          ConsTwice(data, [0x7E], later);
          data := data + [0x7E];
        } else {
          return Short, currIdx;
        }
        currIdx := currIdx + 2;
      } else {
        ConsTwice(data, [b[currIdx]], ReadUnescaped(b[currIdx + 1..], maxPos - currIdx - 1, n - |data| - 1));
        data := data + [b[currIdx]];
        currIdx := currIdx + 1;
      }
    }
  }

  lemma ConsNothing(r: Read)
    ensures Cons([], r) == r
  {
    if r.Got? {
      assert [] + r.data == r.data;
    }
  }

  lemma ReadNothing(t: seq<Byte>, room: int)
    ensures ReadUnescaped(t, room, 0) == Got([], t, room)
  {}

  lemma ReadStep(b: seq<Byte>, i: nat, room: int, n: nat)
    requires i <= |b| && 0 < n
    ensures ReadUnescaped(b[i..], room, n) ==
            if room < 0 then Short
            else if |b| <= i then Fault
            else if b[i] != 0x7D then Cons([b[i]], ReadUnescaped(b[i + 1..], room - 1, n - 1))
            else if room < 1 then Short
            else if |b| <= i + 1 then Fault
            else if b[i + 1] == 0x01 then Cons([0x7D], ReadUnescaped(b[i + 2..], room - 2, n - 1))
            else if b[i + 1] == 0x02 then Cons([0x7E], ReadUnescaped(b[i + 2..], room - 2, n - 1))
            else Short
  {
    if i < |b| {
      assert b[i..][1..] == b[i + 1..];
      if i + 1 < |b| {
        assert b[i..][2..] == b[i + 2..];
      }
    }
  }

  // ----- one frame ----------------------------------------------------------------

  datatype Outcome = Crash | NoMsg | Found(msg: JTT808Msg)

  predicate HasPackageItem(props: U16) { props / 0x2000 % 2 == 1 }

  /** `t` is what follows the opening 0x7E, `room` is how far `maxPos` lies from its start. */
  function Extract(t: seq<Byte>, room: int): Outcome {
    match ReadUnescaped(t, room, 17)
    case Fault => Crash
    case Short => NoMsg
    case Got(fixed, rest, left) =>
      var props := U16At(fixed, 2);
      if !HasPackageItem(props) then ExtractBody(fixed, rest, left, props % 0x400)
      else
        match ReadUnescaped(rest, left, 4)
        case Fault => Crash
        case Short => NoMsg
        case Got(item, rest', left') => ExtractBody(fixed + item, rest', left', props % 0x400)
  }

  function ExtractBody(header: seq<Byte>, t: seq<Byte>, room: int, bodyLen: nat): Outcome {
    if bodyLen > room then NoMsg
    else
      match ReadUnescaped(t, room, bodyLen)
      case Fault => Crash
      case Short => NoMsg
      case Got(body, _, _) => Found(JTT808Msg(header, body))
  }

  method ExtractJTT808Msg(b: seq<Byte>, startPos: nat, maxPos: nat) returns (r: Outcome)
    requires startPos < |b|
    ensures r == Extract(b[startPos + 1..], maxPos - startPos - 1)
  {
    hide ReadUnescaped;
    var h, currIdx := ReadLoop(b, startPos + 1, maxPos, 17);
    if h.Fault? { return Crash; }
    if h.Short? { return NoMsg; }
    var header := h.data;
    var props := U16At(header, 2);
    var msgBodyLen := props % 0x400;
    if HasPackageItem(props) {
      var item, afterItem := ReadLoop(b, currIdx, maxPos, 4);
      if item.Fault? { return Crash; }
      if item.Short? { return NoMsg; }
      header := header + item.data;
      currIdx := afterItem;
    }
    if currIdx + msgBodyLen > maxPos { return NoMsg; }
    var body, _ := ReadLoop(b, currIdx, maxPos, msgBodyLen);
    if body.Fault? { return Crash; }
    if body.Short? { return NoMsg; }
    return Found(JTT808Msg(header, body.data));
  }

  // ----- the next frame -------------------------------------------------------------

  /** `pos` is how many bytes may be dropped from the buffer. */
  datatype Scanned = Crashed | Next(pos: nat, msg: Option<JTT808Msg>)

  function Shift(k: nat, s: Scanned): Scanned {
    match s
    case Crashed => Crashed
    case Next(pos, m) => Next(k + pos, m)
  }

  /** Scans `t`, the buffer from the current position on, of which `room` bytes count. */
  function Scan(t: seq<Byte>, room: nat): (s: Scanned)
    requires room <= |t|
    ensures s.Next? ==> s.pos <= room && (s.msg.Some? ==> s.pos > 0)
    decreases room
  {
    var p := FindByte(t[..room], 0x7E, 0);
    if p == -1 then Next(room, None)
    else Shift(p, Candidate(t[p..], room - p))
  }

  /** The same when `u` starts with 0x7E. */
  function Candidate(u: seq<Byte>, room: nat): (s: Scanned)
    requires 0 < room <= |u|
    ensures s.Next? ==> s.pos <= room && (s.msg.Some? ==> s.pos > 0)
    decreases room, 0
  {
    if 16 > room then Next(0, None)
    else
      var e := FindByte(u[..room], 0x7E, 2);
      if e == -1 then Next(0, None)
      else
        match Decide(u, e)
        case Crash => Crashed
        case Found(m) => Next(e + 1, Some(m))
        case NoMsg => Shift(1, Scan(u[1..], room - 1))
  }

  /** The verdict on the frame whose flags are at 0 and `e`. */
  function Decide(u: seq<Byte>, e: nat): Outcome
    requires 1 <= e < |u|
  {
    if Xors(u[1..e]) == 0 then Extract(u[1..], e) else NoMsg
  }

  method SkipTillValidMsg(data: seq<Byte>, startPos: nat, maxPos: nat) returns (r: int)
    requires startPos <= maxPos <= |data|
    ensures var k := FindByte(data[startPos..maxPos], 0x7E, 0); r == if k == -1 then -1 else startPos + k
  {
    hide FindByte;
    for i := startPos to maxPos
      invariant forall j :: startPos <= j < i ==> data[j] != 0x7E
    {
      if data[i] == 0x7E {
        FindByteAfter(data[startPos..i], 0x7E, data[i + 1..maxPos], 0);
        assert data[startPos..maxPos] == data[startPos..i] + [0x7E] + data[i + 1..maxPos];
        return i;
      }
    }
    FindByteAbsent(data[startPos..maxPos], 0x7E, 0);
    return -1;
  }

  /**
    The inner loop: runs to the first 0x7E that can close the frame opened at `startPos`, folding
    the checksum on the way, and tries the frame there. `end` is -1 when the frame is not complete.
   */
  method TryBeacon(b: seq<Byte>, startPos: nat, maxPos: nat) returns (end: int, r: Outcome)
    requires startPos + 16 <= maxPos <= |b|
    ensures var u, e := b[startPos..], FindByte(b[startPos..maxPos], 0x7E, 2);
            if e == -1 then end == -1 else end == startPos + e && r == Decide(u, e)
  {
    hide FindByte, Extract, Xors;
    ghost var u, room := b[startPos..], maxPos - startPos;
    assert u[..room] == b[startPos..maxPos];
    var currIdx := startPos + 1;
    var checksum: Byte := 0;
    XorsNone(b, currIdx);
    for i := currIdx to maxPos - 1
      invariant checksum == Xors(b[currIdx..i])
      invariant forall j :: currIdx < j <= i ==> b[j] != 0x7E
    {
      XorsNext(b, currIdx, i);
      checksum := Xor(checksum, b[i]);
      if b[i + 1] == 0x7E {
        end := i + 1;
        TerminatorAt(u, room, end - startPos);
        assert u[1..end - startPos] == b[currIdx..end];
        assert u[1..] == b[currIdx..];
        if checksum == 0 {
          r := ExtractJTT808Msg(b, startPos, i + 2);
        } else {
          r := NoMsg;
        }
        return;
      }
    }
    NoTerminator(u, room);
    return -1, NoMsg;
  }

  method GetNextJTT808Msg(b: seq<Byte>, startPos: nat, maxPos: nat) returns (r: Scanned)
    requires startPos <= maxPos <= |b|
    ensures r == Shift(startPos, Scan(b[startPos..], maxPos - startPos))
  {
    hide Scan, FindByte, Decide;
    var skipTillPos := startPos;
    while true
      invariant startPos <= skipTillPos <= maxPos
      invariant Shift(startPos, Scan(b[startPos..], maxPos - startPos)) ==
                Shift(skipTillPos, Scan(b[skipTillPos..], maxPos - skipTillPos))
      decreases maxPos - skipTillPos
    {
      var nextValidPos := SkipTillValidMsg(b, skipTillPos, maxPos);
      ScanStep(b[skipTillPos..], maxPos - skipTillPos);
      assert b[skipTillPos..][..maxPos - skipTillPos] == b[skipTillPos..maxPos];
      if nextValidPos == -1 {
        return Next(maxPos, None);
      }
      ghost var u := b[nextValidPos..];
      assert b[skipTillPos..][nextValidPos - skipTillPos..] == u;
      if nextValidPos + 16 > maxPos {
        return Next(nextValidPos, None);
      }
      var end, msg := TryBeacon(b, nextValidPos, maxPos);
      assert u[..maxPos - nextValidPos] == b[nextValidPos..maxPos];
      if end == -1 {
        return Next(nextValidPos, None);
      }
      if msg.Crash? {
        return Crashed;
      }
      if msg.Found? {
        return Next(end + 1, Some(msg.msg));
      }
      assert u[1..] == b[nextValidPos + 1..];
      skipTillPos := nextValidPos + 1;
    }
  }

  lemma ScanStep(t: seq<Byte>, room: nat)
    requires room <= |t|
    ensures var p := FindByte(t[..room], 0x7E, 0);
            Scan(t, room) == if p == -1 then Next(room, None) else Shift(p, Candidate(t[p..], room - p))
  {}

  lemma XorsNone(b: seq<Byte>, i: nat)
    requires i <= |b|
    ensures Xors(b[i..i]) == 0
  {}

  lemma XorsNext(b: seq<Byte>, from: nat, i: nat)
    requires from <= i < |b|
    ensures Xors(b[from..i + 1]) == Xor(Xors(b[from..i]), b[i])
  {
    hide Xor, Xors;
    assert b[from..i + 1] == b[from..i] + [b[i]];
    XorsConcat(b[from..i], [b[i]]);
    XorsOne(b[i]);
  }

  lemma TerminatorAt(u: seq<Byte>, room: nat, e: nat)
    requires 2 <= e < room <= |u| && u[e] == 0x7E
    requires forall j :: 2 <= j < e ==> u[j] != 0x7E
    ensures FindByte(u[..room], 0x7E, 2) == e
  {}

  lemma NoTerminator(u: seq<Byte>, room: nat)
    requires room <= |u|
    requires forall j :: 2 <= j < room ==> u[j] != 0x7E
    ensures FindByte(u[..room], 0x7E, 2) == -1
  {}
}

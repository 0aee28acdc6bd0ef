/**
  Two JT/T 808 command bodies of the Go server that carry lists: 0x1210, the
  attachments of an alarm, and 0x9212, the pieces of a file still missing.
 */
module Commands {
  import opened Bytes

  datatype Attachment = Attachment(fileNameLength: Byte, fileName: seq<Byte>, fileSize: U32)
  datatype Supplement = Supplement(dataOffset: U32, length: U32)

  type Array7 = s: seq<Byte> | |s| == 7 witness seq(7, _ => 0)
  type Array16 = s: seq<Byte> | |s| == 16 witness seq(16, _ => 0)
  type Array32 = s: seq<Byte> | |s| == 32 witness seq(32, _ => 0)

  datatype Cmd =
    | Cmd1210(terminationId: Array7, alarmId: Array16, alarmNumber: Array32,
              informationType: Byte, noOfAttachments: Byte, attachments: seq<Attachment>)
    | Cmd9212(fileNameLength: Byte, fileName: seq<Byte>, fileType: Byte, uploadResult: Byte,
              numSupplements: Byte, supplements: seq<Supplement>)
  {
    /** Every length and count field says what it counts. */
    predicate Consistent() {
      if Cmd1210? then
        && noOfAttachments == |attachments|
        && forall a <- attachments :: a.fileNameLength == |a.fileName|
      else
        fileNameLength == |fileName| && numSupplements == |supplements|
    }

    function MessageId(): U16 {
      if Cmd1210? then 0x1210 else 0x9212
    }

    function Body(): seq<Byte> {
      if Cmd1210? then
        terminationId + alarmId + alarmNumber + [informationType, noOfAttachments] + PutAttachments(attachments)
      else
        [fileNameLength] + fileName + [fileType, uploadResult, numSupplements] + PutSupplements(supplements)
    }

    /** Appends the command's body to `b`. */
    method Write(b: seq<Byte>) returns (r: seq<Byte>)
      ensures r == b + Body()
    {
      if Cmd1210? {
        r := b + terminationId;
        r := r + alarmId;
        r := r + alarmNumber;
        r := r + [informationType];
        r := r + [noOfAttachments];
        r := AppendAttachments(r, attachments);
      } else {
        r := b + [fileNameLength];
        r := r + fileName;
        r := r + [fileType];
        r := r + [uploadResult];
        r := r + [numSupplements];
        r := AppendSupplements(r, supplements);
      }
    }
  }

  method AppendAttachments(b: seq<Byte>, list: seq<Attachment>) returns (r: seq<Byte>)
    ensures r == b + PutAttachments(list)
  {
    hide ToBigEndian;
    r := b;
    for i := 0 to |list|
      invariant r == b + PutAttachments(list[..i])
    {
      var a := list[i];
      PutAttachmentsAppend(list[..i], a);
      assert list[..i + 1] == list[..i] + [a];
      r := r + [a.fileNameLength];
      r := r + a.fileName;
      r := r + PutU32(a.fileSize);
    }
    assert list[..|list|] == list;
  }

  method AppendSupplements(b: seq<Byte>, list: seq<Supplement>) returns (r: seq<Byte>)
    ensures r == b + PutSupplements(list)
  {
    hide ToBigEndian;
    r := b;
    for i := 0 to |list|
      invariant r == b + PutSupplements(list[..i])
    {
      var s := list[i];
      PutSupplementsAppend(list[..i], s);
      assert list[..i + 1] == list[..i] + [s];
      r := r + PutU32(s.dataOffset);
      r := r + PutU32(s.length);
    }
    assert list[..|list|] == list;
  }

  function PutAttachment(a: Attachment): seq<Byte> {
    [a.fileNameLength] + a.fileName + PutU32(a.fileSize)
  }

  function PutAttachments(s: seq<Attachment>): seq<Byte> {
    if s == [] then [] else PutAttachment(s[0]) + PutAttachments(s[1..])
  }

  function PutSupplements(s: seq<Supplement>): (r: seq<Byte>)
    ensures |r| == 8 * |s|
  {
    if s == [] then [] else PutU32(s[0].dataOffset) + PutU32(s[0].length) + PutSupplements(s[1..])
  }

  lemma {:induction false} PutAttachmentsAppend(s: seq<Attachment>, a: Attachment)
    ensures PutAttachments(s + [a]) == PutAttachments(s) + PutAttachment(a)
  {
    if s == [] {
      assert s + [a] == [a];
    } else {
      assert (s + [a])[1..] == s[1..] + [a];
      PutAttachmentsAppend(s[1..], a);
    }
  }

  lemma {:induction false} PutSupplementsAppend(s: seq<Supplement>, x: Supplement)
    ensures PutSupplements(s + [x]) == PutSupplements(s) + (PutU32(x.dataOffset) + PutU32(x.length))
  {
    hide ToBigEndian;
    if s == [] {
      assert s + [x] == [x];
    } else {
      assert (s + [x])[1..] == s[1..] + [x];
      PutSupplementsAppend(s[1..], x);
    }
  }

  // ----- parsing ------------------------------------------------------------------

  /**
    ErrTooShort is the error of the length checks. Unchecked stands for a read past the body
    that the 0x1210 parser does not check; what the byte-reading library then returns is not
    part of this model.
   */
  datatype Parsed = Parsed(cmd: Cmd) | ErrTooShort | ErrUnknownCmd | Unchecked

  /** The attachments listed from `b` on, or None when a read would leave `b`. */
  function GetAttachments(b: seq<Byte>, n: nat): Option<seq<Attachment>> {
    if n == 0 then Some([])
    else if |b| < 1 || |b| < b[0] as nat + 5 then None
    else
      var k := b[0] as nat;
      match GetAttachments(b[k + 5..], n - 1)
      case None => None
      case Some(rest) => Some([Attachment(b[0], b[1..k + 1], U32At(b, k + 1))] + rest)
  }

  function GetSupplements(b: seq<Byte>, n: nat): (r: seq<Supplement>)
    requires 8 * n <= |b|
    ensures |r| == n
  {
    if n == 0 then [] else [Supplement(U32At(b, 0), U32At(b, 4))] + GetSupplements(b[8..], n - 1)
  }

  function Parse1210(b: seq<Byte>): Parsed {
    if |b| < 57 then ErrTooShort
    else
      match GetAttachments(b[57..], b[56])
      case None => Unchecked
      case Some(list) => Parsed(Cmd1210(b[..7], b[7..23], b[23..55], b[55], b[56], list))
  }

  function Parse9212(b: seq<Byte>): Parsed {
    if |b| < 4 then ErrTooShort
    else
      var k := b[0] as nat;
      if |b| < k + 4 then ErrTooShort
      else
        var n := b[k + 3] as nat;
        if |b| < k + 4 + 8 * n then ErrTooShort
        else Parsed(Cmd9212(b[0], b[1..k + 1], b[k + 1], b[k + 2], b[k + 3], GetSupplements(b[k + 4..], n)))
  }

  /** The two modelled branches of the dispatcher. */
  function ParseCmd(msgId: U16, b: seq<Byte>): Parsed {
    if msgId == 0x1210 then Parse1210(b) else if msgId == 0x9212 then Parse9212(b) else ErrUnknownCmd
  }

  method ParseCmd9212(b: seq<Byte>) returns (r: Parsed)
    ensures r == Parse9212(b)
  {
    hide BigEndian;
    if |b| < 4 {
      return ErrTooShort;
    }
    var offset: nat := 0;
    var fileNameLength: nat := b[offset];
    offset := offset + 1;
    if |b| < offset + fileNameLength + 3 {
      return ErrTooShort;
    }
    var fileName := b[offset..offset + fileNameLength];
    offset := offset + fileNameLength;
    var fileType := b[offset];
    var uploadResult := b[offset + 1];
    var n: nat := b[offset + 2];
    offset := offset + 3;
    if |b| < offset + n * 8 {
      return ErrTooShort;
    }
    var supplements := ReadSupplements(b, offset, n);
    return Parsed(Cmd9212(fileNameLength, fileName, fileType, uploadResult, n, supplements));
  }

  method ReadSupplements(b: seq<Byte>, start: nat, n: nat) returns (list: seq<Supplement>)
    requires start + 8 * n <= |b|
    ensures list == GetSupplements(b[start..], n)
  {
    hide BigEndian, GetSupplements;
    var offset := start;
    list := [];
    SupplementsStep(b, start, n);
    for i := 0 to n
      invariant offset == start + 8 * i
      invariant list + GetSupplements(b[offset..], n - i) == GetSupplements(b[start..], n)
    {
      SupplementsStep(b, offset, n - i);
      ghost var before := list;
      var x := Supplement(U32At(b, offset), U32At(b, offset + 4));
      list := list + [x];
      offset := offset + 8;
      assert before + ([x] + GetSupplements(b[offset..], n - i - 1)) ==
             list + GetSupplements(b[offset..], n - i - 1);
    }
    SupplementsStep(b, offset, 0);
  }

  lemma SupplementsStep(b: seq<Byte>, i: nat, n: nat)
    requires i + 8 * n <= |b|
    ensures GetSupplements(b[i..], n) ==
            if n == 0 then []
            else [Supplement(U32At(b, i), U32At(b, i + 4))] + GetSupplements(b[i + 8..], n - 1)
  {
    hide BigEndian;
    if n != 0 {
      assert b[i..][8..] == b[i + 8..];
      assert b[i..][0..4] == b[i..i + 4];
      assert b[i..][4..8] == b[i + 4..i + 8];
    }
  }

  method ParseCmd1210(b: seq<Byte>) returns (r: Parsed)
    ensures r == Parse1210(b)
  {
    hide BigEndian;
    if |b| < 57 {
      return ErrTooShort;
    }
    var n: nat := b[56];
    var list := ReadAttachments(b, 57, n);
    if list.None? {
      return Unchecked;
    }
    return Parsed(Cmd1210(b[..7], b[7..23], b[23..55], b[55], n, list.value));
  }

  method ReadAttachments(b: seq<Byte>, start: nat, n: nat) returns (list: Option<seq<Attachment>>)
    requires start <= |b|
    ensures list == GetAttachments(b[start..], n)
  {
    hide BigEndian, GetAttachments;
    var startPos, s := start, [];
    PrefixedNothing(GetAttachments(b[start..], n));
    for i := 0 to n
      invariant 0 <= startPos <= |b|
      invariant GetAttachments(b[start..], n) == Prefixed(s, GetAttachments(b[startPos..], n - i))
    {
      AttachmentsStep(b, startPos, n - i);
      if |b| <= startPos || |b| < startPos + b[startPos] as nat + 5 {
        return None;
      }
      var k: nat := b[startPos];
      var a := Attachment(k, b[startPos + 1..startPos + 1 + k], U32At(b, startPos + 1 + k));
      PrefixedTwice(s, [a], GetAttachments(b[startPos + k + 5..], n - i - 1));
      s := s + [a];
      startPos := startPos + k + 5;
    }
    AttachmentsStep(b, startPos, 0);
    assert s + [] == s;
    return Some(s);
  }

  function Prefixed(s: seq<Attachment>, r: Option<seq<Attachment>>): Option<seq<Attachment>> {
    if r.None? then None else Some(s + r.value)
  }

  lemma PrefixedNothing(r: Option<seq<Attachment>>)
    ensures Prefixed([], r) == r
  {
    assert r.Some? ==> [] + r.value == r.value;
  }

  lemma PrefixedTwice(s: seq<Attachment>, t: seq<Attachment>, r: Option<seq<Attachment>>)
    ensures Prefixed(s, Prefixed(t, r)) == Prefixed(s + t, r)
  {
    assert r.Some? ==> s + (t + r.value) == s + t + r.value;
  }

  lemma AttachmentsStep(b: seq<Byte>, i: nat, n: nat)
    requires i <= |b|
    ensures GetAttachments(b[i..], n) ==
            if n == 0 then Some([])
            else if |b| <= i || |b| < i + b[i] as nat + 5 then None
            else
              var k := b[i] as nat;
              Prefixed([Attachment(k, b[i + 1..i + 1 + k], U32At(b, i + 1 + k))], GetAttachments(b[i + k + 5..], n - 1))
  {
    hide BigEndian;
    if n != 0 && i < |b| && i + b[i] as nat + 5 <= |b| {
      var t, k := b[i..], b[i] as nat;
      assert t[k + 5..] == b[i + k + 5..];
      assert t[1..k + 1] == b[i + 1..i + 1 + k];
      assert t[k + 1..k + 5] == b[i + 1 + k..i + 5 + k];
    }
  }

  // ----- laws ---------------------------------------------------------------------

  lemma {:induction false} AttachmentsWritten(s: seq<Attachment>, tail: seq<Byte>)
    requires forall a <- s :: a.fileNameLength == |a.fileName|
    ensures GetAttachments(PutAttachments(s) + tail, |s|) == Some(s)
  {
    hide BigEndian, ToBigEndian, GetAttachments;
    if s == [] {
      AttachmentsStep(tail, 0, 0);
      assert tail[0..] == PutAttachments(s) + tail;
    } else {
      var rest := PutAttachments(s[1..]) + tail;
      AttachmentsWritten(s[1..], tail);
      assert PutAttachments(s) + tail == PutAttachment(s[0]) + rest;
      AttachmentWritten(s[0], rest, |s|);
      assert s == [s[0]] + s[1..];
    }
  }

  lemma AttachmentWritten(a: Attachment, rest: seq<Byte>, n: nat)
    requires a.fileNameLength == |a.fileName| && 0 < n
    ensures GetAttachments(PutAttachment(a) + rest, n) == Prefixed([a], GetAttachments(rest, n - 1))
  {
    hide BigEndian, ToBigEndian, GetAttachments;
    var b, k := PutAttachment(a) + rest, |a.fileName|;
    AttachmentsStep(b, 0, n);
    assert b[0..] == b;
    assert b[1..1 + k] == a.fileName;
    assert b[1 + k..5 + k] == PutU32(a.fileSize);
    U32Stored(b, 1 + k, a.fileSize);
    assert b[k + 5..] == rest;
  }

  lemma {:induction false} AttachmentsRead(b: seq<Byte>, n: nat)
    requires GetAttachments(b, n).Some?
    ensures var s := GetAttachments(b, n).value;
            && |s| == n && (forall a <- s :: a.fileNameLength == |a.fileName|)
            && PutAttachments(s) <= b
  {
    hide BigEndian, ToBigEndian, GetAttachments;
    AttachmentsStep(b, 0, n);
    assert b[0..] == b;
    if n == 0 {
    } else {
      var k := b[0] as nat;
      AttachmentsRead(b[k + 5..], n - 1);
      var s := GetAttachments(b, n).value;
      assert s[1..] == GetAttachments(b[k + 5..], n - 1).value;
      RewriteAttachment(b, k);
      assert b == b[..k + 5] + b[k + 5..];
      assert PutAttachments(s) == PutAttachment(s[0]) + PutAttachments(s[1..]);
    }
  }

  lemma RewriteAttachment(b: seq<Byte>, k: nat)
    requires k + 5 <= |b| && b[0] == k
    ensures PutAttachment(Attachment(b[0], b[1..1 + k], U32At(b, 1 + k))) == b[..k + 5]
  {
    hide BigEndian, ToBigEndian;
    RewriteU32(b, k + 1);
  }

  lemma RewriteU32(b: seq<Byte>, i: nat)
    requires i + 4 <= |b|
    ensures PutU32(U32At(b, i)) == b[i..i + 4]
  {
    ToBigEndianRoundTrip(b[i..i + 4]);
  }

  lemma PutSupplementsStep(s: seq<Supplement>)
    requires s != []
    ensures PutSupplements(s) == PutU32(s[0].dataOffset) + PutU32(s[0].length) + PutSupplements(s[1..])
  {
    hide ToBigEndian;
  }

  lemma {:induction false} SupplementsWritten(s: seq<Supplement>, tail: seq<Byte>)
    ensures GetSupplements(PutSupplements(s) + tail, |s|) == s
  {
    hide *;
    if s == [] {
      NothingListed(tail);
    } else {
      var b := PutSupplements(s) + tail;
      var x, y := PutU32(s[0].dataOffset), PutU32(s[0].length);
      PutSupplementsStep(s);
      SupplementsWritten(s[1..], tail);
      assert b[0..4] == x && b[4..8] == y && b[8..] == PutSupplements(s[1..]) + tail;
      U32Stored(b, 0, s[0].dataOffset);
      U32Stored(b, 4, s[0].length);
      SupplementsStep(b, 0, |s|);
      assert b[0..] == b && s == [s[0]] + s[1..];
    }
  }

  lemma NothingListed(tail: seq<Byte>)
    ensures GetSupplements(PutSupplements([]) + tail, 0) == []
  {}

  lemma {:induction false} SupplementsRead(b: seq<Byte>, n: nat)
    requires 8 * n <= |b|
    ensures PutSupplements(GetSupplements(b, n)) == b[..8 * n]
  {
    hide BigEndian, ToBigEndian;
    if n == 0 {
    } else {
      hide GetSupplements, PutSupplements;
      SupplementsRead(b[8..], n - 1);
      SupplementRewritten(b);
      SupplementsStep(b, 0, n);
      assert b[0..] == b;
      PutSupplementsStep(GetSupplements(b, n));
      assert b[..8 * n] == b[..8] + b[8..][..8 * (n - 1)];
    }
  }

  lemma SupplementRewritten(b: seq<Byte>)
    requires 8 <= |b|
    ensures PutU32(U32At(b, 0)) + PutU32(U32At(b, 4)) == b[..8]
  {
    hide BigEndian, ToBigEndian;
    RewriteU32(b, 0);
    RewriteU32(b, 4);
  }

  /** What was parsed is consistent, and writing it again reproduces the bytes it was parsed from. */
  lemma ParseThenWrite(msgId: U16, b: seq<Byte>)
    requires ParseCmd(msgId, b).Parsed?
    ensures var c := ParseCmd(msgId, b).cmd; c.Consistent() && c.MessageId() == msgId && c.Body() <= b
  {
    hide BigEndian, GetAttachments, GetSupplements, PutAttachments, PutSupplements;
    var c := ParseCmd(msgId, b).cmd;
    if c.Cmd1210? {
      AttachmentsRead(b[57..], b[56]);
      assert b == b[..7] + b[7..23] + b[23..55] + [b[55], b[56]] + b[57..];
    } else {
      var k := b[0];
      SupplementsRead(b[k + 4..], b[k + 3]);
      assert b == [b[0]] + b[1..k + 1] + [b[k + 1], b[k + 2], b[k + 3]] + b[k + 4..];
    }
  }

  /** `s` could have been written at the front of `b`. */
  predicate ListsAttachments(s: seq<Attachment>, b: seq<Byte>) {
    (forall a <- s :: a.fileNameLength == |a.fileName|) && PutAttachments(s) <= b
  }

  /**
    The 0x1210 parser reads past the body exactly when the body is long enough for its fixed part
    and what follows does not begin with a list of as many attachments as it announces.
   */
  lemma UncheckedIff(msgId: U16, b: seq<Byte>)
    ensures ParseCmd(msgId, b) == Unchecked <==>
            msgId == 0x1210 && 57 <= |b| &&
            forall s: seq<Attachment> :: |s| == b[56] ==> !ListsAttachments(s, b[57..])
  {
    hide BigEndian, GetAttachments, GetSupplements, PutAttachments;
    if msgId == 0x1210 && 57 <= |b| {
      var t, n := b[57..], b[56];
      if GetAttachments(t, n).Some? {
        AttachmentsRead(t, n);
        assert ListsAttachments(GetAttachments(t, n).value, t);
      }
      forall s: seq<Attachment> | |s| == n && ListsAttachments(s, t)
        ensures GetAttachments(t, n).Some?
      {
        AttachmentsWritten(s, t[|PutAttachments(s)|..]);
        assert t == PutAttachments(s) + t[|PutAttachments(s)|..];
      }
    }
  }

  /**
    Parsing returns a command if and only if the bytes begin with that command as it is written, its
    message id is the one asked for, and its length and count fields are right. What follows is ignored.
   */
  lemma ParsedIff(msgId: U16, b: seq<Byte>, c: Cmd)
    ensures ParseCmd(msgId, b) == Parsed(c) <==> c.MessageId() == msgId && c.Consistent() && c.Body() <= b
  {
    hide BigEndian, GetAttachments, GetSupplements, PutAttachments, PutSupplements, Cmd.Body, ParseCmd;
    if ParseCmd(msgId, b) == Parsed(c) {
      ParseThenWrite(msgId, b);
    }
    if c.MessageId() == msgId && c.Consistent() && c.Body() <= b {
      var tail := b[|c.Body()|..];
      assert b == c.Body() + tail;
      WriteThenParseMore(c, tail);
    }
  }

  lemma WriteThenParseMore(c: Cmd, tail: seq<Byte>)
    requires c.Consistent()
    ensures ParseCmd(c.MessageId(), c.Body() + tail) == Parsed(c)
  {
    hide Cmd.Body, Cmd.Consistent, Parse1210, Parse9212;
    if c.Cmd1210? {
      Parse1210Written(c, tail);
    } else {
      Parse9212Written(c, tail);
    }
  }

  lemma Parse1210Written(c: Cmd, tail: seq<Byte>)
    requires c.Cmd1210? && c.Consistent()
    ensures Parse1210(c.Body() + tail) == Parsed(c)
  {
    hide BigEndian, GetAttachments, PutAttachments;
    var b, list := c.Body() + tail, PutAttachments(c.attachments);
    AttachmentsWritten(c.attachments, tail);
    assert b == c.terminationId + c.alarmId + c.alarmNumber + [c.informationType, c.noOfAttachments] + (list + tail);
    assert b[57..] == list + tail;
    assert b[..7] == c.terminationId && b[7..23] == c.alarmId && b[23..55] == c.alarmNumber;
  }

  lemma Parse9212Written(c: Cmd, tail: seq<Byte>)
    requires c.Cmd9212? && c.Consistent()
    ensures Parse9212(c.Body() + tail) == Parsed(c)
  {
    hide BigEndian, GetSupplements, PutSupplements;
    var b, k, list := c.Body() + tail, |c.fileName|, PutSupplements(c.supplements);
    SupplementsWritten(c.supplements, tail);
    assert b == [c.fileNameLength] + c.fileName + [c.fileType, c.uploadResult, c.numSupplements] + (list + tail);
    assert b[1..k + 1] == c.fileName;
    assert b[k + 4..] == list + tail;
  }

  /**
    The 0x1210 parser complains about its fixed part alone; the 0x9212 parser complains exactly when
    the bytes do not begin with any whole command.
   */
  lemma TooShortIff(b: seq<Byte>, msgId: U16)
    ensures ParseCmd(msgId, b) == ErrUnknownCmd <==> msgId != 0x1210 && msgId != 0x9212
    ensures ParseCmd(0x1210, b) == ErrTooShort <==> |b| < 57
    ensures ParseCmd(0x9212, b) == ErrTooShort <==> forall c: Cmd :: c.Cmd9212? && c.Consistent() ==> !(c.Body() <= b)
  {
    hide BigEndian, GetAttachments, GetSupplements, Cmd.Body;
    forall c: Cmd | c.Cmd9212? && c.Consistent() && c.Body() <= b
      ensures ParseCmd(0x9212, b) == Parsed(c)
    {
      ParsedIff(0x9212, b, c);
    }
    if ParseCmd(0x9212, b).Parsed? {
      ParseThenWrite(0x9212, b);
    }
  }

  /**
    A written command whose length and count fields are right parses back to itself, and no other
    does, unless the parser reads past the body.
   */
  lemma WriteThenParse(c: Cmd)
    ensures var r := ParseCmd(c.MessageId(), c.Body());
            && (c.Consistent() ==> r == Parsed(c))
            && (r != Unchecked ==> (r == Parsed(c) <==> c.Consistent()))
  {
    ParsedIff(c.MessageId(), c.Body(), c);
  }

  /** Such a command: it announces one attachment and has none. */
  lemma AttachmentMissing(terminationId: Array7, alarmId: Array16, alarmNumber: Array32, informationType: Byte)
    ensures var c := Cmd1210(terminationId, alarmId, alarmNumber, informationType, 1, []);
            !c.Consistent() && ParseCmd(c.MessageId(), c.Body()) == Unchecked
  {}
}

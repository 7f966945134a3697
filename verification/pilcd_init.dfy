/**
 * The initialisation command table of the ST7735 driver (rpi/pilcd.c) and
 * `lcdCommandList`, which walks it. The table is a count byte followed,
 * per command, by the command byte, an argument-count byte whose top bit
 * flags a delay, the arguments and, when flagged, a delay byte. Bytes that
 * `lcdWriteCommand`, `lcdWriteData` and `wait` would send to the hardware
 * are returned as a sequence of bus events.
 */
module PiLcdInit {
  import opened Wrappers

  /** A byte of the table, an unsigned 8-bit value. */
  type Byte = b: int | 0 <= b < 256

  /** The flag bit of an argument-count byte. */
  const Delay: bv8 := 0x80

  /** What `lcdCommandList` sends: a command byte, a data byte, or a pause of so many milliseconds. */
  datatype Bus = Command(cmd: Byte) | Data(arg: Byte) | Pause(ms: int)

  /** One decoded table entry. */
  datatype Entry = Entry(cmd: Byte, args: seq<Byte>, delay: Option<Byte>)

  /** The argument count held in the low seven bits of an argument-count byte (`numArgs &= ~DELAY`). */
  function ArgCount(b: Byte): (n: int)
    ensures 0 <= n < 128
  {
    b % 128
  }

  /** The delay flag of an argument-count byte (`numArgs & DELAY`). */
  predicate Delayed(b: Byte)
  {
    b >= 128
  }

  /** `ArgCount` and `Delayed` are the masks the driver applies to the byte. */
  lemma {:induction false} MasksOfByte(b: bv8)
    ensures ArgCount(b as int) == (b & !Delay) as int
    ensures Delayed(b as int) <==> b & Delay != 0
  {
  }

  /** The pause a delay byte asks for: 255 stands for 500 ms. */
  function DelayMs(d: Byte): (ms: int)
    ensures 0 <= ms <= 500 && (d != 255 ==> ms == d) && (d == 255 ==> ms == 500)
  {
    if d == 255 then 500 else d
  }

  /**
   * The entry whose command byte is at `pos`, and the position after it,
   * or None when the entry would run past the end of the table.
   */
  function ParseEntry(t: seq<Byte>, pos: nat): (r: Option<(Entry, nat)>)
    ensures r.Some? ==> pos < r.value.1 <= |t|
  {
    if pos + 2 > |t| then None
    else
      var argsEnd := pos + 2 + ArgCount(t[pos + 1]);
      if argsEnd > |t| then None
      else if !Delayed(t[pos + 1]) then Some((Entry(t[pos], t[pos + 2..argsEnd], None), argsEnd))
      else if argsEnd + 1 > |t| then None
      else Some((Entry(t[pos], t[pos + 2..argsEnd], Some(t[argsEnd])), argsEnd + 1))
  }

  /** The first `n` entries from `pos` on, and the position after the last one. */
  function ParseEntries(t: seq<Byte>, pos: nat, n: nat): (r: Option<(seq<Entry>, nat)>)
    ensures r.Some? ==> |r.value.0| == n && pos <= r.value.1 <= |t|
    decreases n
  {
    if n == 0 then (if pos <= |t| then Some(([], pos)) else None)
    else
      match ParseEntries(t, pos, n - 1)
      case None => None
      case Some(before) =>
        match ParseEntry(t, before.1)
        case None => None
        case Some(entry) => Some((before.0 + [entry.0], entry.1))
  }

  /** One more entry decoded after the ones before it. */
  lemma {:induction false} ParseEntriesSnoc(t: seq<Byte>, pos: nat, n: nat, es: seq<Entry>, next: nat, e: Entry, end: nat)
    requires n > 0 && ParseEntries(t, pos, n - 1) == Some((es, next)) && ParseEntry(t, next) == Some((e, end))
    ensures ParseEntries(t, pos, n) == Some((es + [e], end))
  {
  }

  /** The whole table: its count byte, then that many entries. */
  function Parse(t: seq<Byte>): Option<seq<Entry>>
  {
    if |t| == 0 then None
    else match ParseEntries(t, 1, t[0])
      case None => None
      case Some(r) => Some(r.0)
  }

  /** The bus events of one entry. */
  function IssueEntry(e: Entry): seq<Bus>
  {
    [Command(e.cmd)] + DataOf(e.args) + (if e.delay.Some? then [Pause(DelayMs(e.delay.value))] else [])
  }

  /**
   * An entry is sent as its command byte, then each argument in order as
   * data, then, when it has one, the pause its delay byte asks for.
   */
  lemma {:induction false} IssueEntryOrder(e: Entry)
    ensures var r := IssueEntry(e);
      |r| == 1 + |e.args| + (if e.delay.Some? then 1 else 0)
      && r[0] == Command(e.cmd)
      && (forall i :: 0 <= i < |e.args| ==> r[1 + i] == Data(e.args[i]))
      && (e.delay.Some? ==> r[|r| - 1] == Pause(DelayMs(e.delay.value)))
  {
  }

  function DataOf(args: seq<Byte>): (r: seq<Bus>)
    ensures |r| == |args| && forall i :: 0 <= i < |args| ==> r[i] == Data(args[i])
  {
    seq(|args|, i requires 0 <= i < |args| => Data(args[i]))
  }

  /** The bus events of a run of entries, in order. */
  function Issue(es: seq<Entry>): seq<Bus>
    decreases |es|
  {
    if es == [] then [] else Issue(es[..|es| - 1]) + IssueEntry(es[|es| - 1])
  }

  /** A table that decodes `n` entries decodes every shorter run of them. */
  lemma {:induction false} ParseShorter(t: seq<Byte>, pos: nat, n: nat, m: nat)
    requires ParseEntries(t, pos, n).Some? && m <= n
    ensures ParseEntries(t, pos, m).Some?
    decreases n
  {
    if m < n {
      ParseShorter(t, pos, n - 1, m);
    }
  }

  /**
   * Entry `done` of a table that decodes `n > done` entries starts where
   * the first `done` end, and adding it extends their bus events.
   */
  lemma {:induction false} NextEntry(t: seq<Byte>, n: nat, done: nat, es: seq<Entry>, pos: nat)
    requires ParseEntries(t, 1, n).Some? && done < n && ParseEntries(t, 1, done) == Some((es, pos))
    ensures ParseEntry(t, pos).Some?
    ensures var (e, next) := ParseEntry(t, pos).value;
      ParseEntries(t, 1, done + 1) == Some((es + [e], next)) && Issue(es + [e]) == Issue(es) + IssueEntry(e)
  {
    ParseShorter(t, 1, n, done + 1);
    IssueAppend(es, ParseEntry(t, pos).value.0);
  }

  lemma {:induction false} IssueAppend(es: seq<Entry>, e: Entry)
    ensures Issue(es + [e]) == Issue(es) + IssueEntry(e)
  {
    assert (es + [e])[..|es|] == es;
  }

  // ---------------------------------------------------------------------
  // lcdCommandList

  /**
   * `lcdCommandList`: reads the count byte, then for each command issues
   * the command byte, its arguments and, when flagged, its pause. The
   * table must hold as many entries as its count byte says; the driver
   * does not check this.
   */
  method CommandList(table: array<Byte>) returns (sent: seq<Bus>)
    requires Parse(table[..]).Some?
    ensures sent == Issue(Parse(table[..]).value)
  {
    ghost var t := table[..];
    var addr: nat := 0;
    var numCommands: int := table[addr];
    addr := addr + 1;
    ghost var done: nat := 0;
    ghost var es: seq<Entry> := [];
    sent := [];
    while numCommands > 0
      invariant 0 <= numCommands && done + numCommands == t[0]
      invariant ParseEntries(t, 1, done) == Some((es, addr)) && sent == Issue(es)
    {
      numCommands := numCommands - 1;
      NextEntry(t, t[0], done, es, addr);
      var issued, next := IssueEntryAt(table, addr);
      es := es + [ParseEntry(t, addr).value.0];
      sent, addr := sent + issued, next;
      done := done + 1;
    }
  }

  /** The body of `lcdCommandList`'s loop: one entry, from its command byte at `addr`. */
  method IssueEntryAt(table: array<Byte>, addr: nat) returns (sent: seq<Bus>, next: nat)
    requires ParseEntry(table[..], addr).Some?
    ensures next == ParseEntry(table[..], addr).value.1
    ensures sent == IssueEntry(ParseEntry(table[..], addr).value.0)
  {
    ghost var t := table[..];
    ghost var e := ParseEntry(t, addr).value.0;
    ghost var argsEnd := addr + 2 + ArgCount(t[addr + 1]);
    assert argsEnd <= |t| && e.cmd == t[addr] && e.args == t[addr + 2..argsEnd];
    assert e.delay == if Delayed(t[addr + 1]) then Some(t[argsEnd]) else None;
    assert ParseEntry(t, addr).value.1 == if Delayed(t[addr + 1]) then argsEnd + 1 else argsEnd;
    var a := addr;
    sent := [Command(table[a])];
    a := a + 1;
    var numArgs: int := table[a];
    a := a + 1;
    var delayed := Delayed(numArgs);
    numArgs := ArgCount(numArgs);
    ghost var start := a;
    while numArgs > 0
      invariant start <= a && 0 <= numArgs && a + numArgs == start + |e.args| <= table.Length
      invariant sent == [Command(e.cmd)] + DataOf(table[start..a])
    {
      sent := sent + [Data(table[a])];
      a := a + 1;
      numArgs := numArgs - 1;
    }
    assert table[start..a] == e.args;
    if delayed {
      var ms := table[a];
      a := a + 1;
      if ms == 255 {
        sent := sent + [Pause(500)];
      } else {
        sent := sent + [Pause(ms)];
      }
    }
    next := a;
  }

  // ---------------------------------------------------------------------
  // Encoding, the inverse of the decoding

  /** An argument-count byte for `n` arguments, with the delay flag when asked for. */
  function ArgByte(n: int, delayed: bool): (b: Byte)
    requires 0 <= n < 128
    ensures ArgCount(b) == n && Delayed(b) == delayed
  {
    if delayed then n + 128 else n
  }

  predicate Encodable(e: Entry)
  {
    |e.args| < 128
  }

  /** Every entry of a run fits the table format. */
  predicate AllEncodable(es: seq<Entry>)
  {
    forall i :: 0 <= i < |es| ==> Encodable(es[i])
  }

  function EncodeEntry(e: Entry): (r: seq<Byte>)
    requires Encodable(e)
  {
    [e.cmd, ArgByte(|e.args|, e.delay.Some?)] + e.args + (if e.delay.Some? then [e.delay.value] else [])
  }

  function EncodeBody(es: seq<Entry>): seq<Byte>
    requires AllEncodable(es)
    decreases |es|
  {
    if es == [] then [] else EncodeBody(es[..|es| - 1]) + EncodeEntry(es[|es| - 1])
  }

  /** A table holding `es`: the count byte, then each entry encoded. */
  function Encode(es: seq<Entry>): seq<Byte>
    requires |es| < 256 && AllEncodable(es)
  {
    [|es|] + EncodeBody(es)
  }

  /** The bytes `s` sit in `t` from position `p` on. */
  ghost predicate At(t: seq<Byte>, p: nat, s: seq<Byte>)
  {
    p + |s| <= |t| && forall i :: 0 <= i < |s| ==> t[p + i] == s[i]
  }

  /** Bytes that sit in a table sit there piece by piece. */
  lemma {:induction false} AtSplit(t: seq<Byte>, p: nat, a: seq<Byte>, b: seq<Byte>)
    requires At(t, p, a + b)
    ensures At(t, p, a) && At(t, p + |a|, b)
  {
    forall i | 0 <= i < |a|
      ensures t[p + i] == a[i]
    {
      assert (a + b)[i] == a[i];
    }
    forall i | 0 <= i < |b|
      ensures t[p + |a| + i] == b[i]
    {
      assert (a + b)[|a| + i] == b[i];
    }
  }

  /** An encoded entry decodes to itself wherever it sits in a table. */
  lemma {:induction false} EntryRoundTrip(t: seq<Byte>, p: nat, e: Entry)
    requires Encodable(e) && At(t, p, EncodeEntry(e))
    ensures ParseEntry(t, p) == Some((e, p + |EncodeEntry(e)|))
  {
    var code := EncodeEntry(e);
    var n := |e.args|;
    var argsEnd := p + 2 + n;
    assert t[p] == code[0] == e.cmd;
    assert t[p + 1] == code[1] == ArgByte(n, e.delay.Some?);
    forall k | 0 <= k < n
      ensures t[p + 2..argsEnd][k] == e.args[k]
    {
      assert t[p + 2 + k] == code[2 + k];
    }
    assert t[p + 2..argsEnd] == e.args;
    if e.delay.Some? {
      assert t[argsEnd] == code[2 + n] == e.delay.value;
    }
  }

  /** The entries of an encoded body decode one after another, wherever the body sits in a table. */
  lemma {:induction false} BodyRoundTrip(t: seq<Byte>, p: nat, es: seq<Entry>)
    requires AllEncodable(es)
    requires At(t, p, EncodeBody(es))
    ensures ParseEntries(t, p, |es|) == Some((es, p + |EncodeBody(es)|))
    decreases |es|
  {
    if es != [] {
      var n := |es|;
      var front, last := es[..n - 1], es[n - 1];
      assert front + [last] == es;
      assert forall i :: 0 <= i < |front| ==> front[i] == es[i];
      var bf, bl := EncodeBody(front), EncodeEntry(last);
      assert EncodeBody(es) == bf + bl;
      AtSplit(t, p, bf, bl);
      BodyRoundTrip(t, p, front);
      EntryRoundTrip(t, p + |bf|, last);
      ParseEntriesSnoc(t, p, n, front, p + |bf|, last, p + |bf| + |bl|);
      assert |EncodeBody(es)| == |bf| + |bl|;
    }
  }

  /** Decoding inverts encoding. */
  lemma {:induction false} RoundTrip(es: seq<Entry>)
    requires |es| < 256 && AllEncodable(es)
    ensures Parse(Encode(es)) == Some(es)
  {
    var t := Encode(es);
    AtSplit(t, 0, [|es| as Byte], EncodeBody(es));
    BodyRoundTrip(t, 1, es);
  }

  /** An entry decodes the same whatever bytes follow it. */
  lemma {:induction false} ParseEntryPrefix(t: seq<Byte>, u: seq<Byte>, pos: nat)
    requires ParseEntry(t, pos).Some?
    ensures ParseEntry(t + u, pos) == ParseEntry(t, pos)
  {
    var argsEnd := pos + 2 + ArgCount(t[pos + 1]);
    assert (t + u)[pos] == t[pos] && (t + u)[pos + 1] == t[pos + 1];
    assert (t + u)[pos + 2..argsEnd] == t[pos + 2..argsEnd];
    if Delayed(t[pos + 1]) {
      assert (t + u)[argsEnd] == t[argsEnd];
    }
  }

  /**
   * Entries decode the same whatever bytes follow them: `lcdCommandList`
   * reads no byte past the last entry it is told about.
   */
  lemma {:induction false} ParseEntriesPrefix(t: seq<Byte>, u: seq<Byte>, pos: nat, n: nat)
    requires ParseEntries(t, pos, n).Some?
    ensures ParseEntries(t + u, pos, n) == ParseEntries(t, pos, n)
    decreases n
  {
    if n > 0 {
      ParseEntriesPrefix(t, u, pos, n - 1);
      ParseEntryPrefix(t, u, ParseEntries(t, pos, n - 1).value.1);
    }
  }

  /** The bytes of one entry: command, argument count, the arguments and a delay byte when flagged. */
  predicate EntryBytes(chunk: seq<Byte>)
  {
    |chunk| >= 2 && |chunk| == 2 + ArgCount(chunk[1]) + (if Delayed(chunk[1]) then 1 else 0)
  }

  /** Entries decoded from `pos` that end at the last byte still do with one more entry's bytes appended. */
  lemma {:induction false} ExtendTable(pre: seq<Byte>, pos: nat, k: nat, chunk: seq<Byte>)
    requires EntryBytes(chunk) && ParseEntries(pre, pos, k).Some? && ParseEntries(pre, pos, k).value.1 == |pre|
    ensures ParseEntries(pre + chunk, pos, k + 1).Some? && ParseEntries(pre + chunk, pos, k + 1).value.1 == |pre + chunk|
  {
    ParseEntriesPrefix(pre, chunk, pos, k);
    var t := pre + chunk;
    assert t[|pre|..] == chunk;
    assert t[|pre| + 1] == chunk[1];
  }

  /** The bytes of a run of entries, one after the other. */
  function Flatten(chunks: seq<seq<Byte>>): seq<Byte>
    decreases |chunks|
  {
    if chunks == [] then [] else Flatten(chunks[..|chunks| - 1]) + chunks[|chunks| - 1]
  }

  /** The same bytes, grouped two ways. */
  lemma {:induction false} Regroup(a: seq<Byte>, b: seq<Byte>, c: seq<Byte>)
    ensures a + b + c == a + (b + c)
  {
  }

  /** A run of well-formed entries decodes from its first byte to its last. */
  lemma {:induction false} ChunksDecode(head: seq<Byte>, chunks: seq<seq<Byte>>)
    requires forall i :: 0 <= i < |chunks| ==> EntryBytes(chunks[i])
    ensures ParseEntries(head + Flatten(chunks), |head|, |chunks|).Some?
    ensures ParseEntries(head + Flatten(chunks), |head|, |chunks|).value.1 == |head + Flatten(chunks)|
    decreases |chunks|
  {
    if chunks == [] {
      assert head + Flatten(chunks) == head;
    } else {
      var front := chunks[..|chunks| - 1];
      var last := chunks[|chunks| - 1];
      assert forall i :: 0 <= i < |front| ==> front[i] == chunks[i];
      ChunksDecode(head, front);
      ExtendTable(head + Flatten(front), |head|, |front|, last);
      assert Flatten(chunks) == Flatten(front) + last;
      Regroup(head, Flatten(front), last);
    }
  }

  // ---------------------------------------------------------------------
  // The driver's initialisation sequence

  /** The lines of `initSeq` after its count byte, one command each. */
  const InitLines: seq<seq<Byte>> := [
    [0x01, 0x80, 150],
    [0x11, 0x80, 150],
    [0xB1, 3, 0x01, 0x2C, 0x2D],
    [0xB2, 3, 0x01, 0x2C, 0x2D],
    [0xB3, 6, 0x01, 0x2C, 0x2D, 0x01, 0x2C, 0x2D],
    [0xB4, 1, 0x07],
    [0xC0, 3, 0xA2, 0x02, 0x84],
    [0xC1, 1, 0xC5],
    [0xC2, 2, 0x0A, 0x00],
    [0xC3, 2, 0x8A, 0x2A],
    [0xC4, 2, 0x8A, 0xEE],
    [0xC5, 1, 0x0E],
    [0x20, 0],
    [0x36, 1, 0x00],
    [0x3A, 1, 0x05],
    [0x2A, 4, 0x00, 0x00, 0x00, 0x7F],
    [0x2B, 4, 0x00, 0x00, 0x00, 0x9F],
    [0xE0, 16, 0x02, 0x1C, 0x07, 0x12, 0x37, 0x32, 0x29, 0x2D, 0x29, 0x25, 0x2B, 0x39, 0x00, 0x01, 0x03, 0x10],
    [0xE1, 16, 0x03, 0x1D, 0x07, 0x06, 0x2E, 0x2C, 0x29, 0x2D, 0x2E, 0x2E, 0x37, 0x3F, 0x00, 0x00, 0x02, 0x10],
    [0x13, 0x80, 10],
    [0x29, 0x80, 100]
  ]

  /** `initSeq`: the count byte 21, then the 21 commands that bring the panel up. */
  const InitSeq: seq<Byte> := [21] + Flatten(InitLines)

  /** `initSeq` decodes within its bounds: its 21 entries end exactly at its last byte. */
  lemma {:induction false} InitSeqDecodes()
    ensures |InitLines| == 21 && InitSeq[0] == 21 && Parse(InitSeq).Some?
    ensures ParseEntries(InitSeq, 1, InitSeq[0]).Some? && ParseEntries(InitSeq, 1, InitSeq[0]).value.1 == |InitSeq|
  {
    forall i | 0 <= i < |InitLines|
      ensures EntryBytes(InitLines[i])
    {
      assert i == 0 || i == 1 || i == 2 || i == 3 || i == 4 || i == 5 || i == 6 || i == 7 || i == 8 || i == 9 || i == 10 || i == 11 || i == 12 || i == 13 || i == 14 || i == 15 || i == 16 || i == 17 || i == 18 || i == 19 || i == 20;
    }
    ChunksDecode([21], InitLines);
  }
}

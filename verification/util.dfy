/**
 * The NMEA helpers of rpi/util.c: C strings held in `char` buffers, the
 * in-place `lstrip` / `rstrip`, field extraction, the XOR checksum and the
 * decoding of GGA and RMC sentences into the position record.
 *
 * A C string is the content of a buffer up to its first NUL; a `string`
 * value here never holds a NUL.
 */
module Util {
  import opened Wrappers
  import opened Bytes
  import opened CText

  // ---------------------------------------------------------------------
  // C strings in buffers

  /** `strchrnul(s, d)` as an index: the first `d` in `s`, or `|s|` (the terminator). */
  function Find(s: string, d: char): (e: nat)
    ensures e <= |s|
  {
    if s == [] || s[0] == d then 0 else 1 + Find(s[1..], d)
  }

  /** Any index with no `d` before it and a `d` (or the end) at it is what `Find` returns. */
  lemma {:induction false} FindAt(s: string, d: char, e: nat)
    requires e <= |s| && d !in s[..e]
    requires e < |s| ==> s[e] == d
    ensures Find(s, d) == e
  {
    if e > 0 {
      assert s[0] == s[..e][0];
      assert s[1..][..e - 1] == s[1..e];
      FindAt(s[1..], d, e - 1);
    }
  }

  /** What `Find` returns: no `d` before it, and a `d` at it unless it is the end. */
  lemma {:induction false} FindSpec(s: string, d: char)
    ensures var e := Find(s, d); d !in s[..e] && (e < |s| ==> s[e] == d)
  {
    if s != [] && s[0] != d {
      FindSpec(s[1..], d);
      var e := Find(s, d);
      assert s[..e] == [s[0]] + s[1..][..e - 1];
    }
  }

  /** `strlen`: the index of the first NUL, or the whole length when there is none. */
  function CLen(s: seq<char>): (n: nat)
    ensures n <= |s|
  {
    Find(s, '\0')
  }

  /** The C string a buffer holds. */
  function CStr(s: seq<char>): string
  {
    s[..CLen(s)]
  }

  /** The buffer holds a NUL, so its C string ends inside it. */
  predicate Terminated(a: array<char>)
    reads a
  {
    CLen(a[..]) < a.Length
  }

  function Nuls(n: nat): seq<char>
  {
    seq(n, _ => '\0')
  }

  /** No character missing from a text is in any slice of it. */
  lemma {:induction false} NotInSlice(s: string, c: char, i: nat, j: nat)
    requires i <= j <= |s| && c !in s
    ensures c !in s[i..j]
  {
  }

  /** A buffer whose text `t` is followed by a NUL holds the C string `t`. */
  lemma {:induction false} CStrOfText(t: string, rest: seq<char>)
    requires '\0' !in t && rest != [] && rest[0] == '\0'
    ensures CStr(t + rest) == t
  {
    var s := t + rest;
    assert s[..|t|] == t;
    FindAt(s, '\0', |t|);
  }

  lemma {:induction false} Concat3(a: seq<char>, b: seq<char>, c: seq<char>)
    ensures a + b + c == a + (b + c)
  {
  }

  /** The same for the buffer as a sequence, with the text written first. */
  lemma {:induction false} BufferLength(t: string, rest: seq<char>)
    requires '\0' !in t && rest != [] && rest[0] == '\0'
    ensures CLen(t + rest) == |t| && CStr(t + rest) == t
  {
    CStrOfText(t, rest);
  }

  /** A text followed by NULs and then a terminated tail is the C string of the buffer. */
  lemma {:induction false} CStrPadded(t: string, k: nat, tail: seq<char>)
    requires '\0' !in t && tail != [] && tail[0] == '\0'
    ensures CStr(t + Nuls(k) + tail) == t
  {
    Concat3(t, Nuls(k), tail);
    assert (Nuls(k) + tail)[0] == '\0';
    CStrOfText(t, Nuls(k) + tail);
  }

  /** One step of `lstrip`'s `memmove`: the text loses its first character and one more NUL follows it. */
  lemma {:induction false} ShiftedLeft(before: seq<char>, after: seq<char>, orig: string, m: nat, tail: seq<char>)
    requires m < |orig| && tail != [] && tail[0] == '\0'
    requires before == orig[m..] + Nuls(m) + tail && |after| == |before|
    requires forall i :: 0 <= i < |orig| - m ==> after[i] == before[i + 1]
    requires forall i :: |orig| - m <= i < |after| ==> after[i] == before[i]
    ensures after == orig[m + 1..] + Nuls(m + 1) + tail
  {
    var want := orig[m + 1..] + Nuls(m + 1) + tail;
    forall i | 0 <= i < |after|
      ensures after[i] == want[i]
    {
      if i < |orig| - m - 1 {
        assert before[i + 1] == orig[m + 1 + i];
      } else if i >= |orig| {
        assert want[i] == tail[i - |orig|];
      }
    }
  }

  /** One step of `rstrip`: the last kept character becomes a NUL. */
  lemma {:induction false} Truncated(before: seq<char>, after: seq<char>, orig: string, keep: nat, tail: seq<char>)
    requires 0 < keep <= |orig|
    requires before == orig[..keep] + Nuls(|orig| - keep) + tail
    requires |after| == |before| && after[keep - 1] == '\0'
    requires forall i :: 0 <= i < |after| && i != keep - 1 ==> after[i] == before[i]
    ensures after == orig[..keep - 1] + Nuls(|orig| - keep + 1) + tail
  {
    var want := orig[..keep - 1] + Nuls(|orig| - keep + 1) + tail;
    forall i | 0 <= i < |after|
      ensures after[i] == want[i]
    {
      if i >= |orig| {
        assert want[i] == tail[i - |orig|];
      }
    }
  }

  lemma {:induction false} KeptFirst(orig: string, m: nat, tail: seq<char>)
    requires m <= |orig| && tail != [] && tail[0] == '\0'
    ensures (orig[m..] + Nuls(m) + tail)[0] == if m < |orig| then orig[m] else '\0'
  {
  }

  lemma {:induction false} KeptChar(orig: string, keep: nat, tail: seq<char>, i: nat)
    requires i < keep <= |orig|
    ensures (orig[..keep] + Nuls(|orig| - keep) + tail)[i] == orig[i]
  {
  }

  // ---------------------------------------------------------------------
  // lstrip / rstrip

  /** The characters stripped: those of `delim`, or white space when `delim` is NULL. */
  predicate Strippable(c: char, delim: Option<string>)
  {
    match delim
    case None => IsSpace(c)
    case Some(d) => c in d
  }

  /** The text `lstrip` leaves: `s` without its leading run of strippable characters. */
  function LStripped(s: string, delim: Option<string>): (t: string)
    ensures |t| <= |s|
  {
    if s != [] && Strippable(s[0], delim) then LStripped(s[1..], delim) else s
  }

  /** The text `rstrip` is meant to leave: `s` without its trailing run of strippable characters. */
  function RStripped(s: string, delim: Option<string>): (t: string)
    ensures |t| <= |s|
  {
    if s != [] && Strippable(s[|s| - 1], delim) then RStripped(s[..|s| - 1], delim) else s
  }

  /**
   * `lstrip(str, delim)`: while the first character is strippable, move the
   * rest of the string, terminator included, one place to the left. The
   * vacated places at the end become NULs; the bytes after the original
   * terminator are untouched. A NULL buffer is returned as it is.
   */
  method LStrip(str: array?<char>, delim: Option<string>) returns (r: array?<char>)
    requires str != null ==> Terminated(str)
    modifies str
    ensures r == str
    ensures str != null ==>
      var orig := old(CStr(str[..]));
      var t := LStripped(orig, delim);
      str[..] == t + Nuls(|orig| - |t|) + old(str[|orig|..])
    ensures str != null ==> CStr(str[..]) == LStripped(old(CStr(str[..])), delim)
  {
    r := str;
    if str == null {
      return;
    }
    FindSpec(str[..], '\0');
    ghost var orig := CStr(str[..]);
    ghost var tail := str[|orig|..];
    ghost var m: nat := 0;
    assert str[..] == orig[m..] + Nuls(0) + tail;
    var done := false;
    while str[0] != '\0' && !done
      invariant LStripState(str[..], orig, tail, m, delim)
      invariant done ==> m < |orig| && !Strippable(orig[m], delim)
      decreases |orig| - m, !done
    {
      KeptFirst(orig, m, tail);
      if Strippable(str[0], delim) {
        ShiftOut(str, orig, tail, m, delim);
        m := m + 1;
      } else {
        done := true;
      }
    }
    KeptFirst(orig, m, tail);
    LStripFinal(str[..], orig, tail, m, delim);
  }

  /** What `lstrip` keeps in the buffer while it runs: the text from index `m`, then NULs, then the untouched tail. */
  ghost predicate LStripState(buf: seq<char>, orig: string, tail: seq<char>, m: nat, delim: Option<string>)
  {
    && m <= |orig| && '\0' !in orig && tail != [] && tail[0] == '\0'
    && buf == orig[m..] + Nuls(m) + tail
    && LStripped(orig[m..], delim) == LStripped(orig, delim)
  }

  /** When `lstrip` stops, the buffer holds the stripped text. */
  lemma {:induction false} LStripFinal(buf: seq<char>, orig: string, tail: seq<char>, m: nat, delim: Option<string>)
    requires LStripState(buf, orig, tail, m, delim)
    requires m < |orig| ==> !Strippable(orig[m], delim)
    ensures var t := LStripped(orig, delim);
      buf == t + Nuls(|orig| - |t|) + tail && CStr(buf) == t
  {
    var t := orig[m..];
    assert LStripped(t, delim) == t;
    NotInSlice(orig, '\0', m, |orig|);
    CStrPadded(t, m, tail);
  }

  /** The `memmove` of `lstrip` past a strippable first character: the rest of the text, terminator included, moves one place left. */
  method ShiftOut(str: array<char>, ghost orig: string, ghost tail: seq<char>, ghost m: nat, ghost delim: Option<string>)
    requires LStripState(str[..], orig, tail, m, delim)
    requires m < |orig| && Strippable(orig[m], delim)
    modifies str
    ensures LStripState(str[..], orig, tail, m + 1, delim)
  {
    Concat3(orig[m..], Nuls(m), tail);
    NotInSlice(orig, '\0', m, |orig|);
    BufferLength(orig[m..], Nuls(m) + tail);
    var n := CLen(str[..]);
    ghost var before := str[..];
    forall i | 0 <= i < n {
      str[i] := str[i + 1];
    }
    ShiftedLeft(before, str[..], orig, m, tail);
    LStrippedStep(orig, m, delim);
  }

  /**
   * `rstrip(str, delim)` with the loop guard `char_index >= 0`: from the last
   * character backwards, overwrite strippable characters with NUL and stop
   * at the first one that is not strippable.
   */
  method RStrip(str: array?<char>, delim: Option<string>) returns (r: array?<char>)
    requires str != null ==> Terminated(str)
    modifies str
    ensures r == str
    ensures str != null ==>
      var orig := old(CStr(str[..]));
      var t := RStripped(orig, delim);
      str[..] == t + Nuls(|orig| - |t|) + old(str[|orig|..])
    ensures str != null ==> CStr(str[..]) == RStripped(old(CStr(str[..])), delim)
  {
    r := str;
    if str == null {
      return;
    }
    FindSpec(str[..], '\0');
    ghost var orig := CStr(str[..]);
    ghost var tail := str[|orig|..];
    ghost var keep: nat := |orig|;
    assert orig[..keep] == orig;
    assert str[..] == orig[..keep] + Nuls(0) + tail;
    var done := false;
    var charIndex := CLen(str[..]) - 1;
    while charIndex >= 0 && !done
      invariant RStripState(str[..], orig, tail, keep, delim)
      invariant keep == if done then charIndex + 2 else charIndex + 1
      invariant done ==> 0 < keep && !Strippable(orig[keep - 1], delim)
      decreases charIndex + 1, !done
    {
      var c := str[charIndex];
      KeptChar(orig, keep, tail, charIndex);
      if Strippable(c, delim) {
        ClearLast(str, charIndex, orig, tail, keep, delim);
        keep := keep - 1;
      } else {
        done := true;
      }
      charIndex := charIndex - 1;
    }
    RStripFinal(str[..], orig, tail, keep, delim);
  }

  /** What `rstrip` keeps in the buffer while it runs: the first `keep` characters, then NULs, then the untouched tail. */
  ghost predicate RStripState(buf: seq<char>, orig: string, tail: seq<char>, keep: nat, delim: Option<string>)
  {
    && keep <= |orig| && '\0' !in orig && tail != [] && tail[0] == '\0'
    && buf == orig[..keep] + Nuls(|orig| - keep) + tail
    && RStripped(orig[..keep], delim) == RStripped(orig, delim)
  }

  /** When `rstrip` stops, the buffer holds the stripped text. */
  lemma {:induction false} RStripFinal(buf: seq<char>, orig: string, tail: seq<char>, keep: nat, delim: Option<string>)
    requires RStripState(buf, orig, tail, keep, delim)
    requires keep > 0 ==> !Strippable(orig[keep - 1], delim)
    ensures var t := RStripped(orig, delim);
      buf == t + Nuls(|orig| - |t|) + tail && CStr(buf) == t
  {
    var t := orig[..keep];
    assert RStripped(t, delim) == t;
    NotInSlice(orig, '\0', 0, keep);
    CStrPadded(t, |orig| - keep, tail);
  }

  /** One step of `rstrip`: the character at `charIndex`, the last one kept so far and strippable, becomes a NUL. */
  method ClearLast(str: array<char>, charIndex: nat, ghost orig: string, ghost tail: seq<char>, ghost keep: nat, ghost delim: Option<string>)
    requires RStripState(str[..], orig, tail, keep, delim)
    requires 0 < keep && charIndex == keep - 1 && Strippable(orig[keep - 1], delim)
    modifies str
    ensures RStripState(str[..], orig, tail, keep - 1, delim)
  {
    ghost var before := str[..];
    str[charIndex] := '\0';
    Truncated(before, str[..], orig, keep, tail);
    RStrippedStep(orig, keep, delim);
  }

  /**
   * What `lstrip` leaves is a suffix of the text: every character removed
   * is strippable, and the first one kept, if any, is not, so the run
   * removed is the longest one.
   */
  lemma {:induction false} LStrippedSpec(s: string, delim: Option<string>)
    ensures var t := LStripped(s, delim);
      && t == s[|s| - |t|..]
      && (forall i :: 0 <= i < |s| - |t| ==> Strippable(s[i], delim))
      && (t != [] ==> !Strippable(t[0], delim))
    decreases |s|
  {
    if s != [] && Strippable(s[0], delim) {
      LStrippedSpec(s[1..], delim);
    }
  }

  /**
   * What `rstrip` is meant to leave is a prefix of the text: every
   * character removed is strippable, and the last one kept, if any, is not.
   */
  lemma {:induction false} RStrippedSpec(s: string, delim: Option<string>)
    ensures var t := RStripped(s, delim);
      && t == s[..|t|]
      && (forall i :: |t| <= i < |s| ==> Strippable(s[i], delim))
      && (t != [] ==> !Strippable(t[|t| - 1], delim))
    decreases |s|
  {
    if s != [] && Strippable(s[|s| - 1], delim) {
      RStrippedSpec(s[..|s| - 1], delim);
    }
  }

  /** `rstrip` only ever removes characters from the end. */
  lemma {:induction false} RStrippedIsPrefix(s: string, delim: Option<string>)
    ensures RStripped(s, delim) <= s
  {
    RStrippedSpec(s, delim);
  }

  /** Stripping from the left past a strippable character. */
  lemma {:induction false} LStrippedStep(s: string, m: nat, delim: Option<string>)
    requires m < |s| && Strippable(s[m], delim)
    ensures LStripped(s[m..], delim) == LStripped(s[m + 1..], delim)
  {
    assert s[m..][1..] == s[m + 1..];
  }

  /** Stripping from the right past a strippable character. */
  lemma {:induction false} RStrippedStep(s: string, keep: nat, delim: Option<string>)
    requires 0 < keep <= |s| && Strippable(s[keep - 1], delim)
    ensures RStripped(s[..keep], delim) == RStripped(s[..keep - 1], delim)
  {
    assert s[..keep][..keep - 1] == s[..keep - 1];
  }

  /**
   * `rstrip` as written: the index starts at `strlen(str) - 1` and the loop
   * runs while the index is non-zero, so the first character is never
   * examined, and an empty string makes the loop read the byte before the
   * buffer (`None`).
   */
  function RStripAsWritten(s: string, delim: Option<string>): (r: Option<string>)
    ensures r.None? <==> s == []
    ensures r.Some? ==> r.value <= s && |r.value| >= 1
  {
    if s == [] then None
    else
      RStrippedIsPrefix(s[1..], delim);
      Some([s[0]] + RStripped(s[1..], delim))
  }

  /** Where the first character is not strippable, the loop as written gives the intended result. */
  lemma {:induction false} RStripAsWrittenAgrees(s: string, delim: Option<string>)
    requires s != [] && !Strippable(s[0], delim)
    ensures RStripAsWritten(s, delim) == Some(RStripped(s, delim))
    decreases |s|
  {
    if |s| > 1 && Strippable(s[|s| - 1], delim) {
      var s' := s[..|s| - 1];
      var u := s[1..];
      assert u[|u| - 1] == s[|s| - 1];
      assert s'[1..] == u[..|u| - 1];
      RStripAsWrittenAgrees(s', delim);
      calc {
        RStripAsWritten(s, delim);
        Some([s[0]] + RStripped(u, delim));
        Some([s'[0]] + RStripped(s'[1..], delim));
        RStripAsWritten(s', delim);
        Some(RStripped(s', delim));
        Some(RStripped(s, delim));
      }
    } else if |s| > 1 {
      assert RStripped(s[1..], delim) == s[1..];
      assert [s[0]] + s[1..] == s;
    } else {
      assert s[1..] == [];
      assert [s[0]] + [] == s;
    }
  }

  /** The two inputs on which `rstrip` as written departs from its purpose. */
  lemma {:induction false} RStripAsWrittenCounterexamples()
    ensures RStripAsWritten("", None) == None
    ensures RStripAsWritten(" ", None) == Some(" ") && RStripped(" ", None) == ""
  {
    var sp := " ";
    assert Strippable(sp[|sp| - 1], None);
    assert sp[1..] == [] && sp[..|sp| - 1] == [];
    assert RStripped(sp, None) == RStripped([], None) == [];
    assert RStripAsWritten(sp, None) == Some([sp[0]] + RStripped([], None));
    assert [sp[0]] + [] == sp;
  }

  // ---------------------------------------------------------------------
  // Fields of a sentence

  /** The fields `d` divides `s` into, in order; field 0 is the text before the first `d`. */
  function Fields(s: string, d: char): (fs: seq<string>)
    ensures |fs| >= 1
    decreases |s|
  {
    var e := Find(s, d);
    if e == |s| then [s] else [s[..e]] + Fields(s[e + 1..], d)
  }

  /** Fields glued back together with the delimiter. */
  function Join(fs: seq<string>, d: char): string
    requires |fs| >= 1
  {
    if |fs| == 1 then fs[0] else fs[0] + [d] + Join(fs[1..], d)
  }

  /** Splitting and joining are inverse: the fields join back into the sentence. */
  lemma {:induction false} FieldsJoin(s: string, d: char)
    ensures Join(Fields(s, d), d) == s
    decreases |s|
  {
    var e := Find(s, d);
    FindSpec(s, d);
    if e < |s| {
      var rest := s[e + 1..];
      FieldsJoin(rest, d);
      var fs := Fields(s, d);
      assert fs[1..] == Fields(rest, d);
      assert s == s[..e] + [d] + rest;
    }
  }

  /** No field holds the delimiter. */
  lemma {:induction false} FieldsAvoidDelimiter(s: string, d: char)
    ensures forall k :: 0 <= k < |Fields(s, d)| ==> d !in Fields(s, d)[k]
    decreases |s|
  {
    var e := Find(s, d);
    FindSpec(s, d);
    if e < |s| {
      FieldsAvoidDelimiter(s[e + 1..], d);
      assert Fields(s, d) == [s[..e]] + Fields(s[e + 1..], d);
    }
  }

  /** Joining fields that hold no delimiter and splitting again gives the same fields. */
  lemma {:induction false} JoinFields(fs: seq<string>, d: char)
    requires |fs| >= 1 && forall k :: 0 <= k < |fs| ==> d !in fs[k]
    ensures Fields(Join(fs, d), d) == fs
    decreases |fs|
  {
    var f := fs[0];
    if |fs| == 1 {
      assert f[..|f|] == f;
      FindAt(f, d, |f|);
    } else {
      var j := Join(fs[1..], d);
      var s := f + [d] + j;
      assert Find(s, d) == |f| by {
        assert s[..|f|] == f && s[|f|] == d;
        FindAt(s, d, |f|);
      }
      assert s[|f| + 1..] == j;
      JoinFields(fs[1..], d);
      assert fs == [f] + fs[1..];
    }
  }

  /** The fields of a suffix that starts a field: the field up to the next delimiter, then the rest. */
  lemma {:induction false} NextField(s: string, d: char, start: nat, e: nat)
    requires start <= e <= |s| && e == start + Find(s[start..], d)
    ensures e < |s| ==> Fields(s[start..], d) == [s[start..e]] + Fields(s[e + 1..], d)
    ensures e == |s| ==> Fields(s[start..], d) == [s[start..]]
  {
    var u := s[start..];
    if e < |s| {
      assert u[..e - start] == s[start..e];
      assert u[e - start + 1..] == s[e + 1..];
    }
  }

  /**
   * The text `nmea_get_field` places in a buffer of `size` bytes: field `k`,
   * cut so that it and its terminator fit (`None` when the field is missing
   * or the arguments are rejected).
   */
  function GetField(s: string, d: char, k: int, size: nat): (r: Option<string>)
    ensures r.Some? <==> 0 <= k < |Fields(s, d)| && size > 0
    ensures r.Some? ==> r.value <= Fields(s, d)[k] && |r.value| < size
    ensures r.Some? && |Fields(s, d)[k]| >= size ==> |r.value| == size - 1
    ensures r.Some? && |Fields(s, d)[k]| < size ==> r.value == Fields(s, d)[k]
  {
    if k < 0 || size == 0 || k >= |Fields(s, d)| then None
    else
      var f := Fields(s, d)[k];
      Some(f[..Min(|f|, size - 1)])
  }

  /** The buffer content after a lookup: the field found, or what was there before. */
  function Refill(previous: string, found: Option<string>): string
  {
    match found
    case None => previous
    case Some(f) => f
  }

  /** `strchrnul(s + from, d)`, as an index into `s`. */
  method StrChrNul(s: string, d: char, from: nat) returns (e: nat)
    requires from <= |s|
    ensures e == from + Find(s[from..], d)
  {
    e := from;
    while e < |s| && s[e] != d
      invariant from <= e <= |s| && d !in s[from..e]
    {
      assert s[from..e + 1] == s[from..e] + [s[e]];
      e := e + 1;
    }
    assert s[from..][..e - from] == s[from..e];
    FindAt(s[from..], d, e - from);
  }

  /**
   * `nmea_get_field`, with the truncation corrected to leave room for the
   * terminator: on success the buffer holds the field (at most
   * `fieldSize - 1` characters) and a NUL, and the length is returned; on
   * failure -1 is returned and the buffer is left as it was.
   */
  method NmeaGetField(nmeaStr: Option<string>, delim: char, field: int, fieldStr: array?<char>, fieldSize: nat)
    returns (fieldLen: int)
    requires nmeaStr.Some? ==> '\0' !in nmeaStr.value
    requires fieldStr != null ==> fieldSize <= fieldStr.Length
    modifies fieldStr
    ensures var r := if nmeaStr.None? || fieldStr == null then None else GetField(nmeaStr.value, delim, field, fieldSize);
      && (r.None? ==> fieldLen == -1 && (fieldStr != null ==> fieldStr[..] == old(fieldStr[..])))
      && (r.Some? ==> 0 <= fieldLen < fieldSize && fieldLen == |r.value|
                      && fieldStr[..] == r.value + ['\0'] + old(fieldStr[fieldLen + 1..]))
    ensures nmeaStr.Some? && fieldStr != null ==>
      CStr(fieldStr[..]) == Refill(old(CStr(fieldStr[..])), GetField(nmeaStr.value, delim, field, fieldSize))
    ensures fieldStr != null && old(Terminated(fieldStr)) ==> Terminated(fieldStr)
  {
    if field < 0 || nmeaStr.None? || fieldStr == null || fieldSize == 0 {
      return -1;
    }
    var found, start, e := SeekField(nmeaStr.value, delim, field);
    if !found {
      return -1;
    }
    fieldLen := CopyField(nmeaStr.value, delim, field, start, e, fieldStr, fieldSize);
  }

  /** The search loop of `nmea_get_field`: where field `field` of `s` lies, if `s` has that many fields. */
  method SeekField(s: string, delim: char, field: nat) returns (found: bool, start: nat, e: nat)
    ensures found <==> field < |Fields(s, delim)|
    ensures found ==> start <= e <= |s| && Fields(s, delim)[field] == s[start..e]
  {
    start := 0;
    e := StrChrNul(s, delim, 0);
    var k := field;
    while k != 0 && e < |s|
      invariant 0 <= k <= field && FieldAt(s, delim, start, e, field - k)
    {
      FieldAtNext(s, delim, start, e, field - k);
      start := e + 1;
      e := StrChrNul(s, delim, start);
      k := k - 1;
    }
    FieldAtEnd(s, delim, start, e, field - k);
    found := k == 0;
  }

  /** Field `j` of `s` starts at `start` and ends at `e`, the first delimiter from there on (or the end). */
  ghost predicate FieldAt(s: string, d: char, start: nat, e: nat, j: nat)
  {
    && start <= e <= |s| && e == start + Find(s[start..], d)
    && j < |Fields(s, d)| && Fields(s[start..], d) == Fields(s, d)[j..]
  }

  /** Past a delimiter, the next field starts. */
  lemma {:induction false} FieldAtNext(s: string, d: char, start: nat, e: nat, j: nat)
    requires FieldAt(s, d, start, e, j) && e < |s|
    ensures FieldAt(s, d, e + 1, e + 1 + Find(s[e + 1..], d), j + 1)
  {
    NextField(s, d, start, e);
    var fs := Fields(s, d);
    assert fs[j + 1..] == fs[j..][1..];
  }

  /** What a field position says: the field's text, and that it is the last one when the end was reached. */
  lemma {:induction false} FieldAtEnd(s: string, d: char, start: nat, e: nat, j: nat)
    requires FieldAt(s, d, start, e, j)
    ensures Fields(s, d)[j] == s[start..e]
    ensures e == |s| ==> |Fields(s, d)| == j + 1
  {
    NextField(s, d, start, e);
    assert Fields(s, d)[j] == Fields(s, d)[j..][0];
  }

  /** A buffer whose first `|f|` cells were set to `f` and whose next cell was set to NUL, all others kept. */
  lemma {:induction false} Placed(before: seq<char>, after: seq<char>, f: string)
    requires |f| < |before| == |after|
    requires forall i :: 0 <= i < |f| ==> after[i] == f[i]
    requires after[|f|] == '\0'
    requires forall i :: |f| < i < |before| ==> after[i] == before[i]
    ensures after == f + ['\0'] + before[|f| + 1..]
    ensures after[|f|..] == ['\0'] + before[|f| + 1..]
  {
  }

  /** The `memcpy` and terminator of `nmea_get_field`, once the field has been found at `s[start..e]`. */
  method CopyField(s: string, delim: char, field: nat, start: nat, e: nat, fieldStr: array<char>, fieldSize: nat)
    returns (len: nat)
    requires '\0' !in s && 0 < fieldSize <= fieldStr.Length
    requires start <= e <= |s| && field < |Fields(s, delim)| && Fields(s, delim)[field] == s[start..e]
    modifies fieldStr
    ensures var f := GetField(s, delim, field, fieldSize).value;
      len == |f| && fieldStr[..] == f + ['\0'] + old(fieldStr[len + 1..]) && CStr(fieldStr[..]) == f
  {
    len := e - start;
    len := if len + 1 > fieldSize then fieldSize - 1 else len;
    ghost var f := s[start..start + len];
    assert f == GetField(s, delim, field, fieldSize).value;
    ghost var before := fieldStr[..];
    forall i | 0 <= i < len {
      fieldStr[i] := s[start + i];
    }
    fieldStr[len] := '\0';
    Placed(before, fieldStr[..], f);
    NotInSlice(s, '\0', start, start + len);
    CStrOfText(f, fieldStr[len..]);
    assert fieldStr[..] == f + fieldStr[len..];
  }

  /**
   * `nmea_get_field` as written: the index at which it stores the
   * terminating NUL (`None` when it returns -1). A field of `size` or more
   * characters is cut to `size` characters, so the NUL goes to index
   * `size`, one past the end of the buffer.
   */
  function GetFieldTerminatorAsWritten(s: string, d: char, k: int, size: nat): (r: Option<int>)
    ensures r.Some? <==> GetField(s, d, k, size).Some?
    ensures r.Some? && |Fields(s, d)[k]| >= size ==> r.value == size
  {
    if k < 0 || size == 0 || k >= |Fields(s, d)| then None
    else
      var len := |Fields(s, d)[k]|;
      Some(if len + 1 > size then size else len)
  }

  /** A four-character checksum field read into the four-byte checksum buffer is terminated outside it. */
  lemma {:induction false} GetFieldAsWrittenOverflows()
    ensures GetFieldTerminatorAsWritten("GPGLL*1234", '*', 1, 4) == Some(4)
    ensures GetField("GPGLL*1234", '*', 1, 4) == Some("123")
  {
    var fs := ["GPGLL", "1234"];
    assert Join(fs, '*') == "GPGLL*1234";
    JoinFields(fs, '*');
    assert fs[1][..3] == "123";
  }

  // ---------------------------------------------------------------------
  // Checksum

  /** `nmea_checksum`: the XOR of the bytes of the C string in `str`. */
  method NmeaChecksum(str: array<char>) returns (checksum: int)
    requires Terminated(str)
    ensures 0 <= checksum < 256
    ensures checksum == XorAll(CStr(str[..])) as int
  {
    FindSpec(str[..], '\0');
    var acc: bv8 := 0;
    var i := 0;
    while str[i] != '\0'
      invariant 0 <= i <= CLen(str[..])
      invariant acc == XorAll(str[..i])
      decreases CLen(str[..]) - i
    {
      assert str[..i + 1][..i] == str[..i];
      acc := acc ^ ByteOf(str[i]);
      i := i + 1;
    }
    assert i == CLen(str[..]);
    assert CStr(str[..]) == str[..i];
    checksum := acc as int;
  }
}

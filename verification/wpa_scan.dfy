/**
 * The text side of the wpa_supplicant client (`wpa_manager.c`): the parse
 * of a `SCAN_RESULTS` reply into scan records and the classification of a
 * `STATUS` reply into a connection state.
 *
 * Replies are the bytes `wpa_ctrl_request` stored, or None when
 * `wifi_send_command` fails; the control socket itself is not part of the
 * model. The reply buffer is NUL-terminated after the reply, so the parse
 * sees the reply up to its first NUL byte (`CStr`).
 */
module WpaScan {
  import opened Common
  import opened CText

  const TAB: bv8 := 0x09
  const NL: bv8 := 0x0A
  /** `sizeof` of the `bssid`, `flags` and `ssid` fields of `wpa_scan_result_t`. */
  const BSSID_SIZE: nat := 20
  const FLAGS_SIZE: nat := 128
  const SSID_SIZE: nat := 64

  /** `wpa_scan_result_t`; text fields are the bytes before their NUL. */
  datatype ScanResult = ScanResult(ssid: Bytes, bssid: Bytes, frequency: int, signalLevel: int, flags: Bytes)

  /** A record after `memset(result, 0, sizeof(wpa_scan_result_t))`. */
  const BLANK := ScanResult([], [], 0, 0, [])

  // ---------------------------------------------------------------- fields

  /** One field of a scan line: its bytes up to the tab (or the end of the
      line), and the line from the field's start on, which is what `atoi`
      reads. */
  datatype Field = Field(text: Bytes, rest: Bytes)

  /** The tab-separated pieces of `rest`: each piece runs to the next tab,
      the last one to the end of the line. */
  function Pieces(rest: Bytes): (ps: seq<Field>)
    ensures |ps| >= 1
    decreases |rest|
  {
    match IndexFrom(rest, 0, TAB)
    case Some(e) => [Field(rest[..e], rest)] + Pieces(rest[e + 1..])
    case None => [Field(rest, rest)]
  }

  /** The fields the field loop reads from a line: the BSSID, frequency,
      signal and flags fields are read only when a tab ends them, and the
      SSID, read once those four were, ends at the next tab or at the end
      of the line. */
  function LineFields(line: Bytes): (fs: seq<Field>)
    ensures |fs| <= 5
  {
    var ps := Pieces(line);
    var tabs := |ps| - 1;
    if tabs >= 4 then ps[..5] else ps[..tabs]
  }

  /** The record after field number `field` is read from `f`: text fields
      are copied only when shorter than their buffer; numbers are `atoi`
      from the field start to the end of the line. */
  function SetField(acc: ScanResult, field: nat, f: Field): ScanResult
  {
    if field == 0 then
      if |f.text| < BSSID_SIZE then acc.(bssid := f.text) else acc
    else if field == 1 then acc.(frequency := Atoi(f.rest))
    else if field == 2 then acc.(signalLevel := Atoi(f.rest))
    else if field == 3 then
      if |f.text| < FLAGS_SIZE then acc.(flags := f.text) else acc
    else if field == 4 then
      if |f.text| < SSID_SIZE then acc.(ssid := f.text) else acc
    else acc
  }

  /** The record the fields `fs` fill in, field `k` from `fs[k]`, starting
      from a zeroed record. */
  function Build(fs: seq<Field>): ScanResult
  {
    if fs == [] then BLANK
    else SetField(Build(fs[..|fs| - 1]), |fs| - 1, fs[|fs| - 1])
  }

  /** What each field of a record built from `fs` ends up holding: a text
      field is the piece's text when it is shorter than its buffer and stays
      empty otherwise; a number is `atoi` of the line from the field's start;
      a field with no piece keeps its zeroed value. */
  lemma {:induction false} BuildFields(fs: seq<Field>)
    ensures Build(fs).bssid == (if |fs| > 0 && |fs[0].text| < BSSID_SIZE then fs[0].text else [])
    ensures Build(fs).frequency == (if |fs| > 1 then Atoi(fs[1].rest) else 0)
    ensures Build(fs).signalLevel == (if |fs| > 2 then Atoi(fs[2].rest) else 0)
    ensures Build(fs).flags == (if |fs| > 3 && |fs[3].text| < FLAGS_SIZE then fs[3].text else [])
    ensures Build(fs).ssid == (if |fs| > 4 && |fs[4].text| < SSID_SIZE then fs[4].text else [])
  {
    if fs != [] {
      var init := fs[..|fs| - 1];
      BuildFields(init);
      assert forall k | 0 <= k < |init| :: init[k] == fs[k];
    }
  }

  /** `wpa_manager_parse_scan_line` field by field: the bssid, flags and
      ssid are copied only when shorter than 20, 128 and 64 bytes and are
      left empty otherwise; frequency and signal level are `atoi` of the
      line from their field on; fields the line does not reach stay zero. */
  lemma FieldsCopiedOnlyWhenShort(line: Bytes)
    ensures var fs := LineFields(line);
      var rec := ParseLine(line).0;
      && rec.bssid == (if |fs| > 0 && |fs[0].text| < BSSID_SIZE then fs[0].text else [])
      && rec.frequency == (if |fs| > 1 then Atoi(fs[1].rest) else 0)
      && rec.signalLevel == (if |fs| > 2 then Atoi(fs[2].rest) else 0)
      && rec.flags == (if |fs| > 3 && |fs[3].text| < FLAGS_SIZE then fs[3].text else [])
      && rec.ssid == (if |fs| > 4 && |fs[4].text| < SSID_SIZE then fs[4].text else [])
  {
    BuildFields(LineFields(line));
  }

  /** The record parsed from one line and the number of fields read. */
  function ParseLine(line: Bytes): (r: (ScanResult, nat))
    ensures r.1 <= 5
    ensures r.1 == 0 ==> r.0 == BLANK
  {
    var fs := LineFields(line);
    (Build(fs), |fs|)
  }

  function TabCount(s: Bytes): nat
  {
    if s == [] then 0 else (if s[0] == TAB then 1 else 0) + TabCount(s[1..])
  }

  lemma {:induction false} TabCountFrom(s: Bytes, from: nat)
    requires from <= |s|
    ensures IndexFrom(s, from, TAB).None? ==> TabCount(s[from..]) == 0
    ensures IndexFrom(s, from, TAB).Some? ==>
      TabCount(s[from..]) == 1 + TabCount(s[IndexFrom(s, from, TAB).value + 1..])
    decreases |s| - from
  {
    if from < |s| {
      assert s[from..][1..] == s[from + 1..];
      TabCountFrom(s, from + 1);
    }
  }

  /** A line has one piece more than it has tabs. */
  lemma {:induction false} PiecesCount(rest: Bytes)
    ensures |Pieces(rest)| == TabCount(rest) + 1
    decreases |rest|
  {
    TabCountFrom(rest, 0);
    assert rest[0..] == rest;
    match IndexFrom(rest, 0, TAB)
    case Some(e) =>
      var tail := rest[e + 1..];
      assert |Pieces(rest)| == 1 + |Pieces(tail)|;
      assert TabCount(rest) == 1 + TabCount(tail);
      PiecesCount(tail);
    case None =>
  }

  /** A line is kept exactly when it holds at least four tabs: the BSSID,
      frequency, signal and flags fields must each be ended by a tab. */
  lemma LineAcceptedIffFourTabs(line: Bytes)
    ensures (ParseLine(line).1 >= 4) == (TabCount(line) >= 4)
    ensures ParseLine(line).1 == Min(TabCount(line), 4) + (if TabCount(line) >= 4 then 1 else 0)
  {
    PiecesCount(line);
  }

  /** A record is printable when its text fields fit their buffers and hold
      no tab, newline or NUL, and its numbers fit a C `int`. */
  predicate PlainText(t: Bytes)
  {
    forall i | 0 <= i < |t| :: t[i] != TAB && t[i] != NL && t[i] != 0
  }

  predicate Printable(r: ScanResult)
  {
    && PlainText(r.bssid) && |r.bssid| < BSSID_SIZE
    && PlainText(r.flags) && |r.flags| < FLAGS_SIZE
    && PlainText(r.ssid) && |r.ssid| < SSID_SIZE
    && INT_MIN <= r.frequency <= INT_MAX
    && INT_MIN <= r.signalLevel <= INT_MAX
  }

  /** The line wpa_supplicant prints for a network:
      bssid, frequency, signal level, flags and SSID, tab separated. */
  function FormatLine(r: ScanResult): Bytes
  {
    r.bssid + ([TAB] + (SignedDecimal(r.frequency) + ([TAB] + (SignedDecimal(r.signalLevel)
      + ([TAB] + (r.flags + ([TAB] + r.ssid)))))))
  }

  lemma SignedDecimalPlain(n: int)
    ensures PlainText(SignedDecimal(n))
  {
    var m: nat := if n < 0 then -n else n;
    DecimalBytesDigits(m);
  }

  /** `strchr` finds the tab that ends a piece without tabs. */
  lemma TabAfterText(text: Bytes, rest: Bytes)
    requires PlainText(text)
    ensures IndexFrom(text + ([TAB] + rest), 0, TAB) == Some(|text|)
  {
    var s := text + ([TAB] + rest);
    assert s[|text|] == TAB;
    assert forall j | 0 <= j < |text| :: s[j] == text[j];
  }

  /** A piece without tabs followed by a tab is the first piece. */
  lemma PieceThenTab(text: Bytes, rest: Bytes)
    requires PlainText(text)
    ensures Pieces(text + ([TAB] + rest)) == [Field(text, text + ([TAB] + rest))] + Pieces(rest)
  {
    var s := text + ([TAB] + rest);
    TabAfterText(text, rest);
    assert s[..|text|] == text;
    assert s[|text| + 1..] == rest;
  }

  /** A piece without tabs is the last piece. */
  lemma PieceAtEnd(text: Bytes)
    requires PlainText(text)
    ensures Pieces(text) == [Field(text, text)]
  {
    assert IndexFrom(text, 0, TAB).None?;
  }

  /** The fields the loop finds in the line printed for a record. */
  function FormatFields(r: ScanResult): seq<Field>
  {
    var g := r.flags + ([TAB] + r.ssid);
    var s := SignedDecimal(r.signalLevel) + ([TAB] + g);
    var f := SignedDecimal(r.frequency) + ([TAB] + s);
    [Field(r.bssid, FormatLine(r))] + ([Field(SignedDecimal(r.frequency), f)]
      + ([Field(SignedDecimal(r.signalLevel), s)] + ([Field(r.flags, g)] + [Field(r.ssid, r.ssid)])))
  }

  /** A tab-free text and a tab in front of `rest` add one piece in front. */
  lemma PiecesCons(text: Bytes, rest: Bytes, prest: seq<Field>)
    requires PlainText(text) && Pieces(rest) == prest
    ensures Pieces(text + ([TAB] + rest)) == [Field(text, text + ([TAB] + rest))] + prest
  {
    PieceThenTab(text, rest);
  }

  /** Five tab-free texts joined by tabs split back into those five pieces. */
  lemma PiecesOfFive(a: Bytes, b: Bytes, c: Bytes, d: Bytes, e: Bytes)
    requires PlainText(a) && PlainText(b) && PlainText(c) && PlainText(d) && PlainText(e)
    ensures var de := d + ([TAB] + e);
      var cde := c + ([TAB] + de);
      var bcde := b + ([TAB] + cde);
      Pieces(a + ([TAB] + bcde)) == [Field(a, a + ([TAB] + bcde))]
        + ([Field(b, bcde)] + ([Field(c, cde)] + ([Field(d, de)] + [Field(e, e)])))
  {
    var de := d + ([TAB] + e);
    var cde := c + ([TAB] + de);
    var bcde := b + ([TAB] + cde);
    var all := a + ([TAB] + bcde);
    var pe := [Field(e, e)];
    PieceAtEnd(e);
    var pde := [Field(d, de)] + pe;
    PiecesCons(d, e, pe);
    var pcde := [Field(c, cde)] + pde;
    PiecesCons(c, de, pde);
    var pbcde := [Field(b, bcde)] + pcde;
    PiecesCons(b, cde, pcde);
    PiecesCons(a, bcde, pbcde);
  }


  lemma PiecesOfFormatLine(r: ScanResult)
    requires Printable(r)
    ensures Pieces(FormatLine(r)) == FormatFields(r)
  {
    SignedDecimalPlain(r.frequency);
    SignedDecimalPlain(r.signalLevel);
    PiecesOfFive(r.bssid, SignedDecimal(r.frequency), SignedDecimal(r.signalLevel), r.flags, r.ssid);
  }


  lemma BuildFormatFields(r: ScanResult)
    requires Printable(r)
    ensures Build(FormatFields(r)) == r
  {
    var fs := FormatFields(r);
    AtoiReadsDecimal(r.frequency, [TAB] + fs[2].rest);
    AtoiReadsDecimal(r.signalLevel, [TAB] + fs[3].rest);
    assert fs[..1][..0] == [];
    assert fs[..2][..1] == fs[..1];
    assert fs[..3][..2] == fs[..2];
    assert fs[..4][..3] == fs[..3];
    assert fs[..|fs| - 1] == fs[..4];
    assert Build(fs[..1]) == BLANK.(bssid := r.bssid);
    assert Build(fs[..2]) == BLANK.(bssid := r.bssid, frequency := r.frequency);
    assert Build(fs[..3]) == BLANK.(bssid := r.bssid, frequency := r.frequency, signalLevel := r.signalLevel);
    assert Build(fs[..4]) == r.(ssid := []);
  }

  /** Parsing the line printed for a printable record gives that record
      back, with all five fields read. */
  lemma ParseFormatLine(r: ScanResult)
    requires Printable(r)
    ensures ParseLine(FormatLine(r)) == (r, 5)
  {
    PiecesOfFormatLine(r);
    assert FormatFields(r)[..5] == FormatFields(r);
    BuildFormatFields(r);
  }

  /** One pass of the field loop: the piece at `rest` is the next one. */
  lemma PieceStep(ps: seq<Field>, k: nat, rest: Bytes)
    requires k < |ps| && Pieces(rest) == ps[k..]
    ensures IndexFrom(rest, 0, TAB).None? ==> |ps| == k + 1 && ps[k] == Field(rest, rest)
    ensures IndexFrom(rest, 0, TAB).Some? ==>
      var e := IndexFrom(rest, 0, TAB).value;
      && ps[k] == Field(rest[..e], rest)
      && Pieces(rest[e + 1..]) == ps[k + 1..]
      && k + 1 < |ps|
  {
    assert ps[k..][0] == ps[k];
    assert ps[k..][1..] == ps[k + 1..];
  }

  /** Reading one more field is one more `SetField`. */
  lemma BuildStep(ps: seq<Field>, k: nat)
    requires k < |ps|
    ensures Build(ps[..k + 1]) == SetField(Build(ps[..k]), k, ps[k])
  {
    assert ps[..k + 1][..k] == ps[..k];
  }

  /** Where the field loop stops, the fields it read are `LineFields`. */
  lemma LineFieldsAt(line: Bytes, k: nat)
    requires (k < 4 && |Pieces(line)| == k + 1) || (k == 5 && |Pieces(line)| >= 5)
    ensures LineFields(line) == Pieces(line)[..k]
  {
  }

  /** One pass of the field loop: read the field starting at `rest`, or
      stop when no tab follows it and it is not the fifth field. */
  method NextField(ghost ps: seq<Field>, fields: nat, rest: Bytes, rec: ScanResult)
    returns (going: bool, rec': ScanResult, fields': nat, rest': Bytes)
    requires fields < 5 && fields < |ps| && Pieces(rest) == ps[fields..]
    requires rec == Build(ps[..fields])
    ensures fields' <= 5 && fields' <= |ps| && rec' == Build(ps[..fields'])
    ensures going ==> fields' == fields + 1 && fields' < |ps| && Pieces(rest') == ps[fields'..]
    ensures !going ==> (fields' < 4 && |ps| == fields' + 1) || (fields' == 5 && |ps| == 5)
  {
    PieceStep(ps, fields, rest);
    BuildStep(ps, fields);
    var t := IndexFrom(rest, 0, TAB);
    if t.None? && fields != 4 {
      return false, rec, fields, rest;
    }
    var end := if t.Some? then t.value else |rest|;
    rec' := SetField(rec, fields, Field(rest[..end], rest));
    fields' := fields + 1;
    if t.Some? {
      going, rest' := true, rest[end + 1..];
    } else {
      going, rest' := false, rest;
    }
  }

  /** The field loop of `wpa_manager_get_scan_results` over one line:
      `rest` is where the current field starts. */
  method ScanFields(line: Bytes) returns (rec: ScanResult, fields: nat)
    ensures (rec, fields) == ParseLine(line)
  {
    ghost var ps := Pieces(line);
    assert ps[0..] == ps;
    rec := BLANK;
    fields := 0;
    var rest := line;
    var going := true;
    while going && fields < 5
      invariant fields <= 5 && fields <= |ps| && rec == Build(ps[..fields])
      invariant going ==> fields < |ps| && Pieces(rest) == ps[fields..]
      invariant !going ==> (fields < 4 && |ps| == fields + 1) || (fields == 5 && |ps| == 5)
      decreases 5 - fields, going
    {
      going, rec, fields, rest := NextField(ps, fields, rest, rec);
    }
    LineFieldsAt(line, fields);
  }



  // ---------------------------------------------------------------- lines

  /** The lines of `s` from `pos` on that end with '\n'; a last line without
      one is not a line. */
  function LinesFrom(s: Bytes, pos: nat): seq<Bytes>
    requires pos <= |s|
    decreases |s| - pos
  {
    match IndexFrom(s, pos, NL)
    case None => []
    case Some(e) => [s[pos..e]] + LinesFrom(s, e + 1)
  }

  /** Whether line number `i` yields a record: not the header, not empty,
      and at least four fields. */
  predicate Kept(i: nat, line: Bytes)
  {
    i > 0 && line != [] && ParseLine(line).1 >= 4
  }

  /** The records the lines yield, in line order. */
  function Records(lines: seq<Bytes>): seq<ScanResult>
  {
    if lines == [] then []
    else
      var i := |lines| - 1;
      Records(lines[..i]) + (if Kept(i, lines[i]) then [ParseLine(lines[i]).0] else [])
  }

  lemma {:induction false} RecordsPrefix(lines: seq<Bytes>, k: nat)
    requires k <= |lines|
    ensures Records(lines[..k]) <= Records(lines)
    decreases |lines| - k
  {
    if k < |lines| {
      var m := |lines| - 1;
      assert lines[..m][..k] == lines[..k];
      RecordsPrefix(lines[..m], k);
    } else {
      assert lines[..k] == lines;
    }
  }

  /** The lines of a `SCAN_RESULTS` reply: the reply is cut at its first
      NUL byte (the terminator written after it) and split at '\n'. */
  function ReplyLines(reply: Bytes): (r: seq<Bytes>)
    ensures forall k | 0 <= k < |r| :: NL !in r[k] && 0 !in r[k]
  {
    LinesClean(CStr(reply), 0);
    LinesFrom(CStr(reply), 0)
  }

  /** The lines of a NUL-free text hold no newline and no NUL. */
  lemma {:induction false} LinesClean(s: Bytes, pos: nat)
    requires pos <= |s| && 0 !in s
    ensures forall k | 0 <= k < |LinesFrom(s, pos)| :: NL !in LinesFrom(s, pos)[k] && 0 !in LinesFrom(s, pos)[k]
    decreases |s| - pos
  {
    match IndexFrom(s, pos, NL)
    case None =>
    case Some(e) =>
      LinesClean(s, e + 1);
      assert NL !in s[pos..e];
      assert 0 !in s[pos..e];
  }

  /** The caller's result slots and how many of them hold records. */
  datatype Filled = Filled(slots: seq<ScanResult>, count: nat)

  /** One line handled by the line loop (which runs while `count < max`):
      any line but the header that is not empty is parsed into slot
      `count`, and counts only when it had at least four fields. A rejected
      line thus leaves its parse in the slot after the last record. */
  function StoreLine(f: Filled, i: nat, line: Bytes, max: nat): (g: Filled)
    requires f.count < max <= |f.slots|
    ensures |g.slots| == |f.slots| && g.count <= max
    ensures g.count == f.count + (if Kept(i, line) then 1 else 0)
    ensures forall j | 0 <= j < |f.slots| && j != f.count :: g.slots[j] == f.slots[j]
    ensures Kept(i, line) ==> g.slots[f.count] == ParseLine(line).0
  {
    if i == 0 || line == [] then f
    else
      var (rec, fields) := ParseLine(line);
      Filled(f.slots[f.count := rec], if fields >= 4 then f.count + 1 else f.count)
  }

  /** The slots and count after the line loop has seen `lines`: once
      `max` records are stored, the loop has stopped. */
  function FillLines(lines: seq<Bytes>, slots: seq<ScanResult>, max: nat): (g: Filled)
    requires max <= |slots|
    ensures |g.slots| == |slots| && g.count <= max
  {
    if lines == [] then Filled(slots, 0)
    else
      var i := |lines| - 1;
      var f := FillLines(lines[..i], slots, max);
      if f.count == max then f else StoreLine(f, i, lines[i], max)
  }

  /** The line loop stores the first `max` records in line order, and leaves
      every slot after the one following them untouched. */
  lemma {:induction false} FillLinesRecords(lines: seq<Bytes>, slots: seq<ScanResult>, max: nat)
    requires max <= |slots|
    ensures FillLines(lines, slots, max).count == Min(|Records(lines)|, max)
    ensures forall j | 0 <= j < FillLines(lines, slots, max).count ::
      FillLines(lines, slots, max).slots[j] == Records(lines)[j]
    ensures forall j | FillLines(lines, slots, max).count < j < |slots| ::
      FillLines(lines, slots, max).slots[j] == slots[j]
  {
    if lines != [] {
      var i := |lines| - 1;
      var f := FillLines(lines[..i], slots, max);
      FillLinesRecords(lines[..i], slots, max);
      var rs := Records(lines[..i]);
      assert Records(lines) == rs + (if Kept(i, lines[i]) then [ParseLine(lines[i]).0] else []);
      if f.count < max {
        var g := StoreLine(f, i, lines[i], max);
        assert f.count == |rs|;
        if Kept(i, lines[i]) {
          assert Records(lines)[|rs|] == ParseLine(lines[i]).0;
        }
      }
    }
  }

  /** Once `max` records are stored, further lines change nothing. */
  lemma {:induction false} FillLinesSaturated(lines: seq<Bytes>, more: seq<Bytes>, slots: seq<ScanResult>, max: nat)
    requires max <= |slots| && FillLines(lines, slots, max).count == max
    ensures FillLines(lines + more, slots, max) == FillLines(lines, slots, max)
    decreases |more|
  {
    if more == [] {
      assert lines + more == lines;
    } else {
      var m := |more| - 1;
      FillLinesSaturated(lines, more[..m], slots, max);
      assert (lines + more)[..|lines + more| - 1] == lines + more[..m];
    }
  }

  /** One more line seen by the loop. */
  lemma FillLinesSnoc(seen: seq<Bytes>, line: Bytes, slots: seq<ScanResult>, max: nat)
    requires max <= |slots| && FillLines(seen, slots, max).count < max
    ensures FillLines(seen + [line], slots, max)
      == StoreLine(FillLines(seen, slots, max), |seen|, line, max)
  {
    assert (seen + [line])[..|seen|] == seen;
  }

  /** One pass of the line loop: the line ending at the next '\n' is the
      next of `lines`. */
  lemma LineStep(lines: seq<Bytes>, k: nat, s: Bytes, pos: nat)
    requires pos <= |s| && k <= |lines| && LinesFrom(s, pos) == lines[k..]
    ensures IndexFrom(s, pos, NL).None? ==> k == |lines|
    ensures IndexFrom(s, pos, NL).Some? ==>
      var e := IndexFrom(s, pos, NL).value;
      && k < |lines| && lines[k] == s[pos..e]
      && LinesFrom(s, e + 1) == lines[k + 1..]
  {
    if k < |lines| {
      assert lines[k..][0] == lines[k];
      assert lines[k..][1..] == lines[k + 1..];
    }
  }

  /** The store of one line into the caller's array. */
  method StoreInto(results: array<ScanResult>, count: nat, i: nat, line: Bytes, max: nat)
    returns (count': nat)
    requires count < max <= results.Length
    modifies results
    ensures Filled(results[..], count') == StoreLine(Filled(old(results[..]), count), i, line, max)
  {
    count' := count;
    if i > 0 && line != [] {
      var rec, fields := ScanFields(line);
      results[count] := rec;
      if fields >= 4 {
        count' := count + 1;
      }
    }
  }

  /** The store of line number `k`, as the fill over the lines up to it. */
  method StoreSeen(results: array<ScanResult>, count: nat, k: nat, max: nat,
                   ghost lines: seq<Bytes>, line: Bytes, ghost slots: seq<ScanResult>)
    returns (count': nat)
    requires k < |lines| && lines[k] == line && count < max <= |slots| == results.Length
    requires Filled(results[..], count) == FillLines(lines[..k], slots, max)
    modifies results
    ensures Filled(results[..], count') == FillLines(lines[..k + 1], slots, max)
  {
    assert lines[..k + 1] == lines[..k] + [line];
    FillLinesSnoc(lines[..k], line, slots, max);
    count' := StoreInto(results, count, k, line, max);
  }

  /** `wpa_manager_get_scan_results`: `reply` is what `SCAN_RESULTS`
      returned, `None` when the command failed. Returns -1 on bad arguments
      or a failed command, otherwise the number of records stored. */
  method GetScanResults(reply: Option<Bytes>, results: array?<ScanResult>, maxResults: int)
    returns (count: int)
    requires results != null && maxResults > 0 ==> maxResults <= results.Length
    modifies results
    ensures results == null || maxResults <= 0 || reply.None? ==> count == -1
    ensures results != null && (maxResults <= 0 || reply.None?) ==> results[..] == old(results[..])
    ensures results != null && maxResults > 0 && reply.Some? ==>
      var g := FillLines(ReplyLines(reply.value), old(results[..]), maxResults);
      results[..] == g.slots && count == g.count
  {
    if results == null || maxResults <= 0 || reply.None? {
      return -1;
    }
    var s := CStr(reply.value);
    ghost var slots := results[..];
    ghost var lines := ReplyLines(reply.value);
    assert lines[0..] == lines;
    var pos := 0;
    var lineNum := 0;
    var stored: nat := 0;
    var more := true;
    while more && stored < maxResults
      invariant pos <= |s| && lineNum <= |lines|
      invariant LinesFrom(s, pos) == lines[lineNum..]
      invariant !more ==> lineNum == |lines|
      invariant Filled(results[..], stored) == FillLines(lines[..lineNum], slots, maxResults)
      decreases |s| - pos, more
    {
      LineStep(lines, lineNum, s, pos);
      var e := IndexFrom(s, pos, NL);
      if e.None? {
        more := false;
      } else {
        assert LinesFrom(s, e.value + 1) == lines[lineNum + 1..];
        stored := StoreSeen(results, stored, lineNum, maxResults, lines, s[pos..e.value], slots);
        lineNum := lineNum + 1;
        pos := e.value + 1;
      }
    }
    if more {
      assert lines[..lineNum] + lines[lineNum..] == lines;
      FillLinesSaturated(lines[..lineNum], lines[lineNum..], slots, maxResults);
    } else {
      assert lines[..lineNum] == lines;
    }
    count := stored;
  }

  /** What the caller gets: the first records of the reply, as many as fit. */
  lemma GetScanResultsRecords(reply: Bytes, slots: seq<ScanResult>, max: nat)
    requires 0 < max <= |slots|
    ensures var g := FillLines(ReplyLines(reply), slots, max);
      && g.count == Min(|Records(ReplyLines(reply))|, max)
      && g.slots[..g.count] == Records(ReplyLines(reply))[..g.count]
  {
    FillLinesRecords(ReplyLines(reply), slots, max);
  }

  // ---------------------------------------------------------------- status

  /** `WPA_WIFI_CONNECT_STATUS_E`. */
  datatype ConnectStatus = Inactive | Scanning | Disconnect | Connect | WrongKey

  const COMPLETED: Bytes := [0x77, 0x70, 0x61, 0x5F, 0x73, 0x74, 0x61, 0x74, 0x65, 0x3D,
                             0x43, 0x4F, 0x4D, 0x50, 0x4C, 0x45, 0x54, 0x45, 0x44]
  const DISCONNECTED: Bytes := [0x77, 0x70, 0x61, 0x5F, 0x73, 0x74, 0x61, 0x74, 0x65, 0x3D,
                                0x44, 0x49, 0x53, 0x43, 0x4F, 0x4E, 0x4E, 0x45, 0x43, 0x54, 0x45, 0x44]
  const SCANNING: Bytes := [0x77, 0x70, 0x61, 0x5F, 0x73, 0x74, 0x61, 0x74, 0x65, 0x3D,
                            0x53, 0x43, 0x41, 0x4E, 0x4E, 0x49, 0x4E, 0x47]
  const INACTIVE: Bytes := [0x77, 0x70, 0x61, 0x5F, 0x73, 0x74, 0x61, 0x74, 0x65, 0x3D,
                            0x49, 0x4E, 0x41, 0x43, 0x54, 0x49, 0x56, 0x45]

  /** Whether `p` occurs in `s` at `i`. */
  predicate MatchAt(s: Bytes, p: Bytes, i: nat)
  {
    i + |p| <= |s| && s[i..i + |p|] == p
  }

  /** Whether `p` occurs in `s`. */
  ghost predicate Contains(s: Bytes, p: Bytes)
  {
    exists i: nat :: MatchAt(s, p, i)
  }

  /** `strstr(s + from, p)` as an index: the first occurrence at or after
      `from`. */
  function FindFrom(s: Bytes, p: Bytes, from: nat): (r: Option<nat>)
    requires from <= |s|
    ensures r.Some? ==> from <= r.value && MatchAt(s, p, r.value)
    ensures r.Some? ==> forall i: nat | from <= i < r.value :: !MatchAt(s, p, i)
    ensures r.None? ==> forall i: nat | from <= i :: !MatchAt(s, p, i)
    decreases |s| - from
  {
    if |s| - from < |p| then None
    else if s[from..from + |p|] == p then Some(from)
    else FindFrom(s, p, from + 1)
  }

  /** `strstr` finds the pattern exactly when it occurs. */
  lemma FindIffContains(s: Bytes, p: Bytes)
    ensures FindFrom(s, p, 0).Some? == Contains(s, p)
  {
    if FindFrom(s, p, 0).Some? {
      assert MatchAt(s, p, FindFrom(s, p, 0).value);
    }
  }

  /** The state `wpa_manager_wifi_status` leaves in `g_connect_status` after
      the `STATUS` reply `reply` (None: the command failed), starting from
      `prev`. */
  function StatusAfter(reply: Option<Bytes>, prev: ConnectStatus): (r: ConnectStatus)
    ensures reply.None? ==> r == prev
    ensures r == prev || r in {Connect, Disconnect, Scanning, Inactive}
  {
    if reply.None? then prev
    else
      var s := CStr(reply.value);
      if FindFrom(s, COMPLETED, 0).Some? then Connect
      else if FindFrom(s, DISCONNECTED, 0).Some? then Disconnect
      else if FindFrom(s, SCANNING, 0).Some? then Scanning
      else if FindFrom(s, INACTIVE, 0).Some? then Inactive
      else prev
  }

  /** The four tests in order: the first state string found in the reply
      decides, and with none found (or no reply) the state is kept; the
      wrong-key state is never entered from a reply. */
  lemma StatusClassification(reply: Bytes, prev: ConnectStatus)
    ensures Contains(CStr(reply), COMPLETED) ==> StatusAfter(Some(reply), prev) == Connect
    ensures (!Contains(CStr(reply), COMPLETED) && Contains(CStr(reply), DISCONNECTED)) ==>
      StatusAfter(Some(reply), prev) == Disconnect
    ensures (!Contains(CStr(reply), COMPLETED) && !Contains(CStr(reply), DISCONNECTED)
             && Contains(CStr(reply), SCANNING)) ==>
      StatusAfter(Some(reply), prev) == Scanning
    ensures (!Contains(CStr(reply), COMPLETED) && !Contains(CStr(reply), DISCONNECTED)
             && !Contains(CStr(reply), SCANNING) && Contains(CStr(reply), INACTIVE)) ==>
      StatusAfter(Some(reply), prev) == Inactive
    ensures (!Contains(CStr(reply), COMPLETED) && !Contains(CStr(reply), DISCONNECTED)
             && !Contains(CStr(reply), SCANNING) && !Contains(CStr(reply), INACTIVE)) ==>
      StatusAfter(Some(reply), prev) == prev
    ensures StatusAfter(Some(reply), prev) == WrongKey ==> prev == WrongKey
  {
    var s := CStr(reply);
    FindIffContains(s, COMPLETED);
    FindIffContains(s, DISCONNECTED);
    FindIffContains(s, SCANNING);
    FindIffContains(s, INACTIVE);
  }
}

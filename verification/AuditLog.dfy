/** The crash-tolerant record of what happened (`apps/agent/src-tauri/src/audit.rs`): one entry a
    line, appended, read back newest first. */
module AuditLog {
  import opened Bytes

  const NEWLINE: byte := 10
  const RETURN: byte := 13

  datatype Kind = Sealed | Requested | Granted | Denied | Revoked | Opened | Expired | Failed
  datatype Role = Owner | Recipient
  datatype Source = Local | Chain
  datatype Detail = NoDetail | ReadOnlyWord | EditWord | VersionNumber(version: u32) | Problem(what: string)

  datatype Entry = Entry(
    at: u64, kind: Kind, role: Role, source: Source, fid: bytes32, fileName: Option<string>, detail: Detail)

  /** JSON as the record uses it: `encode` writes an entry as one line of UTF-8, `decode` reads a
      line, `utf8` says whether bytes are valid UTF-8. */
  datatype Json = Json(encode: Entry -> bytes, decode: bytes -> Option<Entry>, utf8: bytes -> bool) {

    /** An entry survives the round trip and holds no line break, and no proper prefix of it is an entry
        (a JSON object ends with its closing brace). */
    ghost predicate Keeps(e: Entry) {
      && encode(e) != [] && NEWLINE !in encode(e) && RETURN !in encode(e)
      && decode(encode(e)) == Some(e) && utf8(encode(e))
      && forall k :: 0 <= k < |encode(e)| ==> decode(encode(e)[..k]).None?
    }
  }

  // ---------------------------------------------------------------- lines

  /** The finished lines of a file and the bytes after its last line break. */
  function Scan(file: bytes): (seq<bytes>, bytes) {
    if file == [] then ([], [])
    else
      var (lines, tail) := Scan(file[..|file| - 1]);
      var c := file[|file| - 1];
      if c == NEWLINE then (lines + [tail], []) else (lines, tail + [c])
  }

  /** `BufRead::lines`, for text without carriage returns. */
  function Lines(file: bytes): seq<bytes> {
    var (lines, tail) := Scan(file);
    if tail == [] then lines else lines + [tail]
  }

  lemma {:induction false} ScanText(file: bytes, text: bytes)
    requires NEWLINE !in text
    ensures Scan(file + text) == (Scan(file).0, Scan(file).1 + text)
  {
    if text == [] {
      assert file + text == file && Scan(file).1 + text == Scan(file).1;
    } else {
      var n := |text| - 1;
      ScanText(file, text[..n]);
      assert (file + text)[..|file + text| - 1] == file + text[..n];
      assert Scan(file).1 + text == Scan(file).1 + text[..n] + [text[n]];
    }
  }

  lemma ScanNewline(file: bytes)
    ensures Scan(file + [NEWLINE]) == (Scan(file).0 + [Scan(file).1], [])
  {
    assert (file + [NEWLINE])[..|file|] == file;
  }

  predicate Torn(file: bytes) {
    file != [] && file[|file| - 1] != NEWLINE
  }

  lemma TornHasTail(file: bytes)
    ensures Torn(file) <==> Scan(file).1 != []
  {
  }

  // ---------------------------------------------------------------- appending

  /** What one append writes when nothing goes wrong. */
  function FullLine(file: bytes, text: bytes): bytes {
    (if Torn(file) then [NEWLINE] else []) + text + [NEWLINE]
  }

  /** How much of the entry's own text is on the disk when only `cut` bytes were written. */
  function TextWritten(file: bytes, text: bytes, cut: nat): (m: nat)
    ensures m <= |text|
  {
    var skip := if Torn(file) then 1 else 0;
    if cut <= skip then 0 else if cut - skip >= |text| then |text| else cut - skip
  }

  /** Where the entry's own text begins: on a line of its own. */
  function Start(file: bytes): bytes {
    if Torn(file) then file + [NEWLINE] else file
  }

  lemma StartScans(file: bytes)
    ensures Scan(Start(file)) == (Lines(file), [])
  {
    TornHasTail(file);
    ScanNewline(file);
  }

  lemma LineScans(start: bytes, lines: seq<bytes>, text: bytes)
    requires NEWLINE !in text && Scan(start) == (lines, [])
    ensures Scan(start + text) == (lines, text) && Scan(start + text + [NEWLINE]) == (lines + [text], [])
  {
    ScanText(start, text);
    assert [] + text == text;
    ScanNewline(start + text);
  }

  /** What is on the disk after an append that was cut, by the text that was written. */
  lemma CutAppend(file: bytes, text: bytes, cut: nat)
    requires cut <= |FullLine(file, text)|
    ensures var m := TextWritten(file, text, cut);
            var after := file + FullLine(file, text)[..cut];
            || (m == 0 && (after == file || after == Start(file)))
            || (m > 0 && after == Start(file) + text[..m])
            || (m == |text| && after == Start(file) + text + [NEWLINE])
  {
    hide Torn;
    var whole := FullLine(file, text);
    var skip := if Torn(file) then 1 else 0;
    if cut == 0 {
      assert file + whole[..cut] == file;
    } else if cut <= skip {
      assert file + whole[..cut] == Start(file);
    } else if cut < |whole| {
      assert file + whole[..cut] == Start(file) + text[..TextWritten(file, text, cut)];
    } else {
      assert file + whole[..cut] == Start(file) + text + [NEWLINE];
    }
  }

  /** However an append is cut, it adds the text that was written as a line of its own and leaves
      the lines before it alone. */
  lemma AppendAddsLine(file: bytes, text: bytes, cut: nat)
    requires NEWLINE !in text && text != [] && cut <= |FullLine(file, text)|
    ensures var m := TextWritten(file, text, cut);
            Lines(file + FullLine(file, text)[..cut]) == Lines(file) + if m > 0 then [text[..m]] else []
  {
    hide Torn, Scan, FullLine, Start, TextWritten;
    var m := TextWritten(file, text, cut);
    CutAppend(file, text, cut);
    StartScans(file);
    LineScans(Start(file), Lines(file), text[..m]);
    LineScans(Start(file), Lines(file), text);
    assert text[..|text|] == text;
  }

  // ---------------------------------------------------------------- reading

  function Reverse<T>(s: seq<T>): (r: seq<T>)
    ensures |r| == |s|
  {
    if s == [] then [] else [s[|s| - 1]] + Reverse(s[..|s| - 1])
  }

  function Truncate<T>(s: seq<T>, limit: nat): seq<T> {
    if |s| <= limit then s else s[..limit]
  }

  /** The entries on lines before the first that is not UTF-8; lines that are no entry are skipped. */
  function Entries(j: Json, lines: seq<bytes>): seq<Entry> {
    if lines == [] || !j.utf8(lines[0]) then []
    else
      (match j.decode(lines[0])
       case Some(e) => [e]
       case None => [])
      + Entries(j, lines[1..])
  }

  lemma EntriesStep(j: Json, lines: seq<bytes>, i: nat)
    requires i < |lines| && j.utf8(lines[i])
    ensures Entries(j, lines[i..])
            == (match j.decode(lines[i])
                case Some(e) => [e] + Entries(j, lines[i + 1..])
                case None => Entries(j, lines[i + 1..]))
  {
    assert lines[i..][1..] == lines[i + 1..];
  }

  /** The record: a file and the operations on it. */
  class Log {
    const json: Json
    var file: bytes

    constructor (json: Json)
      ensures file == [] && this.json == json
    {
      this.json := json;
      file := [];
    }

    /** `append`; a crash leaves only the first `cut` bytes of the line it was writing. */
    method Append(entry: Entry, cut: nat)
      requires cut <= |FullLine(file, json.encode(entry))|
      modifies this
      ensures file == old(file) + FullLine(old(file), json.encode(entry))[..cut]
    {
      var torn := |file| > 0 && file[|file| - 1] != NEWLINE;
      var line := if torn then [NEWLINE] else [];
      line := line + json.encode(entry);
      line := line + [NEWLINE];
      file := file + line[..cut];
    }

    /** `read`. */
    method Read(limit: nat) returns (entries: seq<Entry>)
      ensures entries == Truncate(Reverse(Entries(json, Lines(file))), limit)
      ensures var all := Entries(json, Lines(file));
              && |entries| == (if limit < |all| then limit else |all|)
              && forall i :: 0 <= i < |entries| ==> entries[i] == all[|all| - 1 - i]
    {
      hide Lines, Reverse;
      var lines := Lines(file);
      entries := [];
      assert lines[0..] == lines;
      var i := 0;
      while i < |lines| && json.utf8(lines[i])
        invariant 0 <= i <= |lines|
        invariant entries + Entries(json, lines[i..]) == Entries(json, lines)
      {
        EntriesStep(json, lines, i);
        match json.decode(lines[i]) {
          case Some(e) =>
            entries := entries + [e];
          case None =>
        }
        i := i + 1;
      }
      assert Entries(json, lines[i..]) == [];
      assert entries == Entries(json, lines);
      NewestFirst(entries, limit);
      entries := Reverse(entries);
      if |entries| > limit {
        entries := entries[..limit];
      }
    }
  }

  /** The last come first, and no more than the limit. */
  lemma {:induction false} NewestFirst(es: seq<Entry>, limit: nat)
    ensures var r := Truncate(Reverse(es), limit);
            && |Reverse(es)| == |es| && |r| == (if limit < |es| then limit else |es|)
            && forall i :: 0 <= i < |r| ==> r[i] == es[|es| - 1 - i]
  {
    forall i | 0 <= i < |es|
      ensures |Reverse(es)| == |es| && Reverse(es)[i] == es[|es| - 1 - i]
    {
      ReversedAt(es, i);
    }
    if es == [] {
      assert Reverse(es) == [];
    }
  }

  lemma {:induction false} ReversedAt(es: seq<Entry>, i: nat)
    requires i < |es|
    ensures |Reverse(es)| == |es| && Reverse(es)[i] == es[|es| - 1 - i]
  {
    if |es| > 1 {
      if i > 0 {
        ReversedAt(es[..|es| - 1], i - 1);
      } else {
        ReversedAt(es[..|es| - 1], 0);
      }
    }
  }

  // ---------------------------------------------------------------- whole runs

  /** A run of appends, each with the number of bytes that reached the disk. */
  type Appends = seq<(Entry, nat)>

  function Disk(j: Json, run: Appends): bytes {
    if run == [] then []
    else
      var before := Disk(j, run[..|run| - 1]);
      var whole := FullLine(before, j.encode(run[|run| - 1].0));
      before + if run[|run| - 1].1 <= |whole| then whole[..run[|run| - 1].1] else whole
  }

  /** The part of the last entry's text that reached the disk. */
  function LastText(j: Json, run: Appends): bytes
    requires run != []
  {
    var (entry, cut) := run[|run| - 1];
    j.encode(entry)[..TextWritten(Disk(j, run[..|run| - 1]), j.encode(entry), cut)]
  }

  /** The entries whose whole text reached the disk, oldest first, up to the first append that was
      cut inside a character. */
  function Surviving(j: Json, run: Appends): seq<Entry> {
    if run == [] then []
    else
      var before := run[..|run| - 1];
      if !Readable(j, before) || LastText(j, run) != j.encode(run[|run| - 1].0) then Surviving(j, before)
      else Surviving(j, before) + [run[|run| - 1].0]
  }

  /** No append was cut inside a character. */
  predicate Readable(j: Json, run: Appends) {
    run == [] || (Readable(j, run[..|run| - 1]) && (LastText(j, run) == [] || j.utf8(LastText(j, run))))
  }

  lemma DiskStep(j: Json, run: Appends)
    requires run != [] && j.Keeps(run[|run| - 1].0)
    ensures Lines(Disk(j, run))
            == Lines(Disk(j, run[..|run| - 1])) + if LastText(j, run) == [] then [] else [LastText(j, run)]
  {
    hide Lines, Torn;
    var (entry, cut) := run[|run| - 1];
    var file, text := Disk(j, run[..|run| - 1]), j.encode(entry);
    var whole := FullLine(file, text);
    AppendAddsLine(file, text, if cut <= |whole| then cut else |whole|);
    assert whole[..|whole|] == whole;
  }

  /** The codec keeps every entry of the run. */
  ghost predicate KeepsAll(j: Json, run: Appends) {
    forall i :: 0 <= i < |run| ==> j.Keeps(run[i].0)
  }

  ghost predicate AllText(j: Json, lines: seq<bytes>) {
    forall i :: 0 <= i < |lines| ==> j.utf8(lines[i])
  }

  lemma {:induction false} EntriesSnoc(j: Json, lines: seq<bytes>, last: bytes)
    ensures AllText(j, lines) && j.utf8(last)
            ==> Entries(j, lines + [last])
                == Entries(j, lines) + (match j.decode(last) case Some(e) => [e] case None => [])
    ensures !AllText(j, lines) || !j.utf8(last) ==> Entries(j, lines + [last]) == Entries(j, lines)
  {
    if lines == [] {
      assert (lines + [last])[1..] == [];
      assert Entries(j, []) == [];
    } else {
      assert (lines + [last])[1..] == lines[1..] + [last];
      EntriesSnoc(j, lines[1..], last);
      assert AllText(j, lines) <==> j.utf8(lines[0]) && AllText(j, lines[1..]);
    }
  }

  /** After any run of appends, however each was cut, the file's readable entries are those whose
      whole text reached the disk, in order, up to the first append cut inside a character; from
      that append on everything is lost. */
  lemma {:induction false} SurvivorsOnDisk(j: Json, run: Appends)
    requires KeepsAll(j, run)
    ensures Entries(j, Lines(Disk(j, run))) == Surviving(j, run)
    ensures AllText(j, Lines(Disk(j, run))) <==> Readable(j, run)
  {
    if run != [] {
      var before := run[..|run| - 1];
      var (entry, cut) := run[|run| - 1];
      SurvivorsOnDisk(j, before);
      var file := Disk(j, before);
      hide Lines, Disk;
      DiskStep(j, run);
      var text := LastText(j, run);
      assert j.encode(entry)[..|j.encode(entry)|] == j.encode(entry);
      if text != [] {
        assert Lines(Disk(j, run)) == Lines(file) + [text];
        EntriesSnoc(j, Lines(file), text);
        assert j.decode(text) == if text == j.encode(entry) then Some(entry) else None;
        assert Entries(j, Lines(file)) + [] == Entries(j, Lines(file));
        var lines := Lines(file);
        assert forall i :: 0 <= i < |lines| ==> (lines + [text])[i] == lines[i];
        assert (lines + [text])[|lines|] == text;
      } else {
        assert Lines(Disk(j, run)) == Lines(file);
        assert j.encode(entry) != [];
      }
    }
  }

  /** If no append was cut inside a character, reading returns exactly the entries whose whole text
      reached the disk, newest first, cut to the limit. */
  lemma CrashesLoseOnlyTornEntries(j: Json, run: Appends, limit: nat)
    requires KeepsAll(j, run) && Readable(j, run)
    ensures Truncate(Reverse(Entries(j, Lines(Disk(j, run)))), limit) == Truncate(Reverse(Whole(j, run)), limit)
  {
    SurvivorsOnDisk(j, run);
    SurvivingAll(j, run);
  }

  /** The entries whose whole text reached the disk. */
  function Whole(j: Json, run: Appends): seq<Entry> {
    if run == [] then []
    else
      Whole(j, run[..|run| - 1]) + if LastText(j, run) == j.encode(run[|run| - 1].0) then [run[|run| - 1].0] else []
  }

  lemma {:induction false} SurvivingAll(j: Json, run: Appends)
    requires Readable(j, run)
    ensures Surviving(j, run) == Whole(j, run)
  {
    if run != [] {
      SurvivingAll(j, run[..|run| - 1]);
    }
  }

  /** A cut inside a character hides every later entry, for good. */
  lemma {:induction false} TornCharacterHidesTheRest(j: Json, run: Appends, later: Appends)
    requires KeepsAll(j, run + later) && !Readable(j, run)
    ensures Entries(j, Lines(Disk(j, run + later))) == Entries(j, Lines(Disk(j, run)))
    ensures !Readable(j, run + later)
    decreases |later|
  {
    if later == [] {
      assert run + later == run;
    } else {
      var n := |later| - 1;
      assert forall i :: 0 <= i < |run + later[..n]| ==> (run + later[..n])[i] == (run + later)[i];
      TornCharacterHidesTheRest(j, run, later[..n]);
      assert (run + later)[..|run + later| - 1] == run + later[..n];
      SurvivorsOnDisk(j, run + later);
      SurvivorsOnDisk(j, run + later[..n]);
    }
  }

  /** UTF-8, as far as one- and two-byte characters go. */
  predicate Utf8(b: bytes) {
    if b == [] then true
    else if b[0] < 128 then Utf8(b[1..])
    else 0xC2 <= b[0] <= 0xDF && |b| > 1 && 0x80 <= b[1] <= 0xBF && Utf8(b[2..])
  }

  /** It happens: with an entry that starts with a two-byte character, cut after its first byte, the next
      entry is written whole and cannot be read. */
  lemma TornCharacterHappens(e: Entry) returns (j: Json, run: Appends)
    ensures KeepsAll(j, run) && !Readable(j, run) && Whole(j, run) == [e]
    ensures Entries(j, Lines(Disk(j, run))) == []
  {
    var text: bytes := [0xC3, 0xA9, 125];
    j := Json(_ => text, b => if b == text then Some(e) else None, Utf8);
    run := [(e, 1)] + [(e, 5)];
    assert Utf8([125]) && text[2..] == [125];
    assert j.Keeps(e);
    var first: Appends := [(e, 1)];
    assert run[..1] == first && first[..0] == [];
    assert Disk(j, first) == [0xC3] by {
      assert Disk(j, []) == [];
      assert FullLine([], text)[..1] == [0xC3];
    }
    assert LastText(j, first) == [0xC3] && LastText(j, first) != text;
    assert !Utf8([0xC3]) && !Readable(j, first);
    assert LastText(j, run) == text by {
      assert text[..3] == text;
    }
    SurvivorsOnDisk(j, run);
    assert Surviving(j, first) == [] && Surviving(j, run) == [];
    assert Whole(j, first) == [] && Whole(j, run) == [] + [e];
  }
}

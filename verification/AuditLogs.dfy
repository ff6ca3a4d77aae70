// The audit log: append-and-sync records, rotation over five generations, and the repair of a torn
// last line when the log is opened again (runtime.go).
//
// Every file system call may fail before or after it took effect, and each failure returns at
// once. The states in which a method can return an error are therefore exactly the states in
// which a crash inside it can leave the files.
module AuditLogs {
  const MAX_BYTES := 0x100_0000
  const RETENTION := 5

  // ----- Lines -----

  predicate IsSpace(c: char) { c in " \t\n\r" || c == '\U{0B}' || c == '\U{0C}' }

  function TrimLeft(s: string): string {
    if s != "" && IsSpace(s[0]) then TrimLeft(s[1..]) else s
  }

  function TrimRight(s: string): string {
    if s != "" && IsSpace(s[|s| - 1]) then TrimRight(s[..|s| - 1]) else s
  }

  function Trim(s: string): string { TrimRight(TrimLeft(s)) }

  // The index of the first newline from `from` on, or the length.
  function NewlineFrom(s: string, from: nat): (at: nat)
    requires from <= |s|
    ensures from <= at <= |s|
    ensures at < |s| ==> s[at] == '\n'
    ensures forall k | from <= k < at :: s[k] != '\n'
    decreases |s| - from
  {
    if from == |s| || s[from] == '\n' then from else NewlineFrom(s, from + 1)
  }

  // The complete lines of a file, without their newlines, and what follows the last newline.
  function Lines(s: string): seq<string>
    decreases |s|
  {
    var at := NewlineFrom(s, 0);
    if at == |s| then [] else [s[..at]] + Lines(s[at + 1..])
  }

  // The index just after the last newline before n, or 0.
  function LineStart(s: string, n: nat): (start: nat)
    requires n <= |s|
    ensures start <= n && (start > 0 ==> s[start - 1] == '\n')
    ensures forall k | start <= k < n :: s[k] != '\n'
  {
    if n == 0 || s[n - 1] == '\n' then n else LineStart(s, n - 1)
  }

  function Tail(s: string): (t: string)
    ensures |t| <= |s| && '\n' !in t
  {
    s[LineStart(s, |s|)..]
  }

  lemma {:induction false} LineStartAfter(s: string, cut: nat, n: nat)
    requires 0 < cut <= n <= |s| && s[cut - 1] == '\n'
    ensures LineStart(s, n) == cut + LineStart(s[cut..], n - cut)
    decreases n
  {
    if n > cut && s[n - 1] != '\n' {
      LineStartAfter(s, cut, n - 1);
      assert s[cut..][n - cut - 1] == s[n - 1];
    }
  }

  // Cutting whole lines off the front leaves the tail alone.
  lemma TailAfter(s: string, cut: nat)
    requires 0 < cut <= |s| && s[cut - 1] == '\n'
    ensures Tail(s) == Tail(s[cut..])
  {
    LineStartAfter(s, cut, |s|);
  }

  function Text(records: seq<string>): string {
    if records == [] then "" else records[0] + "\n" + Text(records[1..])
  }

  // A file is its complete lines followed by its tail.
  lemma {:induction false} LinesAndTail(s: string)
    ensures s == Text(Lines(s)) + Tail(s)
    decreases |s|
  {
    hide Tail;
    var at := NewlineFrom(s, 0);
    if at == |s| {
      LastPiece(s);
    } else {
      var line, rest := s[..at], s[at + 1..];
      LinesAndTail(rest);
      TailAfter(s, at + 1);
      var text, tail := Text(Lines(rest)), Tail(rest);
      assert Lines(s)[0] == line && Lines(s)[1..] == Lines(rest);
      assert Text(Lines(s)) == line + "\n" + text;
      assert s == line + "\n" + (text + tail);
      assert line + "\n" + (text + tail) == line + "\n" + text + tail;
    }
  }

  // A file without a newline is all tail.
  lemma LastPiece(s: string)
    requires NewlineFrom(s, 0) == |s|
    ensures Lines(s) == [] && Tail(s) == s
    ensures s == "" ==> Trim(s) == ""
  {
    assert LineStart(s, |s|) == 0;
  }

  lemma {:induction false} LinesHaveNoNewline(s: string)
    ensures forall line | line in Lines(s) :: '\n' !in line
    decreases |s|
  {
    var at := NewlineFrom(s, 0);
    if at < |s| {
      LinesHaveNoNewline(s[at + 1..]);
    }
  }

  // The first newline of a line followed by anything ends that line.
  lemma FirstLineEnds(line: string, rest: string)
    requires '\n' !in line
    ensures NewlineFrom(line + "\n" + rest, 0) == |line|
  {
    var s := line + "\n" + rest;
    assert s[|line|] == '\n';
    forall k | 0 <= k < |line| ensures s[k] != '\n' {
      assert s[k] == line[k] && line[k] in line;
    }
  }

  // Reading back what was written: the lines are the records and the tail is the torn end.
  lemma {:induction false} ReadBack(records: seq<string>, tail: string)
    requires '\n' !in tail && forall r | r in records :: '\n' !in r
    ensures Lines(Text(records) + tail) == records && Tail(Text(records) + tail) == tail
    decreases |records|
  {
    hide Tail;
    var s := Text(records) + tail;
    if records == [] {
      assert s == tail;
      assert forall k | 0 <= k < |s| :: s[k] in s;
      LastPiece(s);
    } else {
      var r, later := records[0], Text(records[1..]);
      FirstLineEnds(r, later + tail);
      assert s == r + "\n" + (later + tail);
      assert s[|r| + 1..] == later + tail && s[..|r|] == r;
      ReadBack(records[1..], tail);
      TailAfter(s, |r| + 1);
      assert Lines(s) == [r] + records[1..];
    }
  }

  lemma {:induction false} TextAppend(records: seq<string>, r: string)
    ensures Text(records + [r]) == Text(records) + r + "\n"
  {
    if records == [] {
      assert records + [r] == [r] && Text([r]) == r + "\n" + Text([]);
    } else {
      TextAppend(records[1..], r);
      assert (records + [r])[1..] == records[1..] + [r];
    }
  }

  lemma {:induction false} TrimLeftIs(s: string)
    ensures |TrimLeft(s)| <= |s| && s[|s| - |TrimLeft(s)|..] == TrimLeft(s)
    ensures forall i | 0 <= i < |s| - |TrimLeft(s)| :: s[i] in " \t\n\r\U{0B}\U{0C}"
    ensures TrimLeft(s) != "" ==> TrimLeft(s)[0] !in " \t\n\r\U{0B}\U{0C}"
  {
    if s != "" && IsSpace(s[0]) {
      TrimLeftIs(s[1..]);
    }
  }

  lemma {:induction false} TrimRightIs(s: string)
    ensures |TrimRight(s)| <= |s| && s[..|TrimRight(s)|] == TrimRight(s)
    ensures forall i | |TrimRight(s)| <= i < |s| :: s[i] in " \t\n\r\U{0B}\U{0C}"
    ensures TrimRight(s) != "" ==> TrimRight(s)[|TrimRight(s)| - 1] !in " \t\n\r\U{0B}\U{0C}"
  {
    if s != "" && IsSpace(s[|s| - 1]) {
      TrimRightIs(s[..|s| - 1]);
    }
  }

  // Trimming takes blanks off both ends and nothing else; what is left neither starts nor ends with one.
  lemma TrimIs(s: string)
    ensures Trim(s) != "" ==> Trim(s)[0] !in " \t\n\r\U{0B}\U{0C}" && Trim(s)[|Trim(s)| - 1] !in " \t\n\r\U{0B}\U{0C}"
    ensures exists left, right :: 0 <= left <= right <= |s| && Trim(s) == s[left..right] &&
              forall i | 0 <= i < left || right <= i < |s| :: s[i] in " \t\n\r\U{0B}\U{0C}"
  {
    hide TrimLeft, TrimRight;
    TrimLeftIs(s);
    var body, left := TrimLeft(s), |s| - |TrimLeft(s)|;
    TrimRightIs(body);
    var right := left + |TrimRight(body)|;
    assert Trim(s) == s[left..right];
    forall i | 0 <= i < left || right <= i < |s| ensures s[i] in " \t\n\r\U{0B}\U{0C}" {
      if i >= right { assert s[i] == body[i - left]; }
    }
  }

  // A complete line that validateAuditJSONL accepts.
  predicate GoodLine(json: string -> bool, line: string) {
    Trim(line) != "" && json(Trim(line))
  }

  predicate Acceptable(json: string -> bool, s: string) {
    forall line | line in Lines(s) :: GoodLine(json, line)
  }

  // What is left of an acceptable file: a torn last line goes, trailing blanks stay.
  function Repaired(s: string): string {
    if Trim(Tail(s)) == "" then s else s[..|s| - |Tail(s)|]
  }

  // Repair keeps every complete line, leaves nothing torn and, done twice, changes nothing more.
  lemma RepairIsIdempotent(json: string -> bool, s: string)
    ensures Lines(Repaired(s)) == Lines(s) && Trim(Tail(Repaired(s))) == ""
    ensures Acceptable(json, Repaired(s)) <==> Acceptable(json, s)
    ensures Repaired(Repaired(s)) == Repaired(s)
  {
    LinesAndTail(s);
    LinesHaveNoNewline(s);
    if Trim(Tail(s)) != "" {
      assert s[..|s| - |Tail(s)|] == Text(Lines(s));
      ReadBack(Lines(s), "");
      assert Text(Lines(s)) + "" == Text(Lines(s));
    }
  }

  // The scan's step: the first line decides, then the rest.
  lemma {:induction false} FirstLineThenRest(json: string -> bool, s: string, at: nat)
    requires at == NewlineFrom(s, 0) < |s|
    ensures Tail(s) == Tail(s[at + 1..])
    ensures Acceptable(json, s) <==> GoodLine(json, s[..at]) && Acceptable(json, s[at + 1..])
  {
    hide GoodLine, Tail;
    TailAfter(s, at + 1);
    var line, rest := s[..at], Lines(s[at + 1..]);
    assert Lines(s) == [line] + rest;
    assert Lines(s)[0] == line;
    forall l | l in rest ensures l in Lines(s) {
      assert l in [line] + rest;
    }
  }

  lemma NoLinesAcceptable(json: string -> bool, s: string)
    requires Lines(s) == []
    ensures Acceptable(json, s)
  {
  }

  lemma AcceptableInFull(json: string -> bool, s: string)
    ensures Acceptable(json, s) <==> forall line | line in Lines(s) :: Trim(line) != "" && json(Trim(line))
  {
    hide Lines, Trim;
  }

  // validateAuditJSONL on the bytes of a file: scan line by line from the last good end.
  method ValidateBytes(json: string -> bool, contents: string) returns (ok: bool, repaired: string)
    ensures ok <==> Acceptable(json, contents)
    ensures ok <==> forall line | line in Lines(contents) :: Trim(line) != "" && json(Trim(line))
    ensures ok ==> repaired == Repaired(contents)
  {
    hide GoodLine, Lines, Tail, Trim, Acceptable;
    AcceptableInFull(json, contents);
    var validEnd := 0;
    assert contents[0..] == contents;
    while validEnd < |contents|
      invariant 0 <= validEnd <= |contents|
      invariant Tail(contents) == Tail(contents[validEnd..])
      invariant Acceptable(json, contents) <==> Acceptable(json, contents[validEnd..])
      decreases |contents| - validEnd
    {
      var rest := contents[validEnd..];
      var next := NewlineFrom(rest, 0);
      if next == |rest| {
        LastPiece(rest);
        NoLinesAcceptable(json, rest);
        return true, if Trim(rest) == "" then contents else contents[..validEnd];
      }
      FirstLineThenRest(json, rest, next);
      if !GoodLine(json, rest[..next]) {
        return false, contents;
      }
      assert rest[next + 1..] == contents[validEnd + next + 1..];
      validEnd := validEnd + next + 1;
    }
    LastPiece(contents[validEnd..]);
    NoLinesAcceptable(json, contents[validEnd..]);
    ok, repaired := true, contents;
  }

  // ----- Records -----

  // An encoded event: one JSON object on one line.
  predicate ProperRecord(json: string -> bool, r: string) {
    '\n' !in r && |r| >= 2 && r[0] == '{' && r[|r| - 1] == '}' && json(r)
  }

  lemma ProperIsTrimmed(json: string -> bool, r: string)
    requires ProperRecord(json, r)
    ensures Trim(r) == r && GoodLine(json, r)
  {
  }

  // What a torn write leaves behind the complete lines: nothing, or the start of an object.
  predicate TornTail(tail: string) {
    '\n' !in tail && (tail != "" ==> tail[0] == '{')
  }

  lemma {:induction false} TornIsNotBlank(tail: string)
    requires tail != "" && tail[0] == '{'
    ensures Trim(tail) != ""
  {
    StartSurvivesTrimRight(tail);
  }

  lemma {:induction false} StartSurvivesTrimRight(s: string)
    requires s != "" && !IsSpace(s[0])
    ensures TrimRight(s) != ""
  {
    if IsSpace(s[|s| - 1]) {
      StartSurvivesTrimRight(s[..|s| - 1]);
    }
  }

  function Slot<V>(kept: map<nat, seq<V>>, i: nat): seq<V> {
    if i in kept then kept[i] else []
  }

  // The records still on disk, oldest first: slot n down to the active file in slot 0.
  function Retained<V>(kept: map<nat, seq<V>>, n: nat): seq<V> {
    if n == 0 then Slot(kept, 0) else Slot(kept, n) + Retained(kept, n - 1)
  }

  lemma {:induction false} RetainedFrame<V>(a: map<nat, seq<V>>, b: map<nat, seq<V>>, n: nat)
    requires forall i: nat | i <= n :: Slot(a, i) == Slot(b, i)
    ensures Retained(a, n) == Retained(b, n)
  {
    if n > 0 {
      RetainedFrame(a, b, n - 1);
    }
  }

  // Moving a generation up into an empty slot changes neither what is retained nor its order.
  lemma {:induction false} MovingUpKeepsOrder<V>(kept: map<nat, seq<V>>, i: nat, n: nat)
    requires i in kept && i + 1 !in kept && i + 1 <= n
    ensures Retained((kept - {i})[i + 1 := kept[i]], n) == Retained(kept, n)
  {
    var moved := (kept - {i})[i + 1 := kept[i]];
    if i + 1 < n {
      MovingUpKeepsOrder(kept, i, n - 1);
    } else if i == 0 {
      assert Slot(moved, 0) == [] && Slot(kept, 1) == [];
      assert Retained(moved, 1) == kept[0] + Retained(moved, 0);
      assert Retained(kept, 1) == [] + Retained(kept, 0);
    } else {
      RetainedFrame(kept, moved, i - 1);
      var below := Retained(kept, i - 1);
      assert Retained(moved, i) == [] + below;
      assert Retained(kept, i) == kept[i] + below;
      assert Retained(moved, n) == kept[i] + ([] + below);
      assert Retained(kept, n) == [] + (kept[i] + below);
    }
  }

  lemma {:induction false} AppendingToActive<V>(kept: map<nat, seq<V>>, r: V, n: nat)
    ensures Retained(kept[0 := Slot(kept, 0) + [r]], n) == Retained(kept, n) + [r]
  {
    if n > 0 {
      AppendingToActive(kept, r, n - 1);
      assert Slot(kept[0 := Slot(kept, 0) + [r]], n) == Slot(kept, n);
    }
  }

  lemma {:induction false} DroppingOldest<V>(kept: map<nat, seq<V>>, n: nat)
    requires n > 0
    ensures Retained(kept, n) == Slot(kept, n) + Retained(kept - {n}, n)
  {
    hide Slot;
    var rest := kept - {n};
    SlotsWithout(kept, n);
    RetainedFrame(kept, rest, n - 1);
    assert Retained(rest, n) == Retained(rest, n - 1);
  }

  lemma SlotsWithout<V>(kept: map<nat, seq<V>>, n: nat)
    ensures Slot(kept - {n}, n) == [] && forall i: nat | i != n :: Slot(kept - {n}, i) == Slot(kept, i)
  {
    var rest := kept - {n};
    forall i: nat ensures i in rest <==> i in kept && i != n {
    }
  }

  // ----- The log -----

  // What a slot's file holds: its records, and in the active file perhaps a torn end.
  predicate Holds(file: string, records: seq<string>) {
    Text(records) <= file && TornTail(file[|Text(records)|..])
  }

  ghost predicate Records(json: string -> bool, kept: map<nat, seq<string>>) {
    forall i, r | i in kept && r in kept[i] :: ProperRecord(json, r)
  }

  lemma NoNewlines(json: string -> bool, kept: map<nat, seq<string>>, i: nat)
    requires Records(json, kept) && i in kept
    ensures forall r | r in kept[i] :: '\n' !in r && GoodLine(json, r)
  {
    forall r | r in kept[i] ensures '\n' !in r && GoodLine(json, r) {
      ProperIsTrimmed(json, r);
    }
  }

  // Opening a file that holds records is accepted, and repair leaves exactly their text.
  lemma RepairLeavesRecords(json: string -> bool, file: string, records: seq<string>)
    requires Holds(file, records)
    requires forall r | r in records :: '\n' !in r && GoodLine(json, r)
    ensures Acceptable(json, file) && Repaired(file) == Text(records)
    ensures Lines(Text(records)) == records
  {
    hide GoodLine, Tail, Lines, Trim;
    var tail := file[|Text(records)|..];
    assert file == Text(records) + tail;
    ReadBack(records, tail);
    ReadBack(records, "");
    assert Text(records) + "" == Text(records);
    if tail != "" {
      TornIsNotBlank(tail);
    } else {
      assert Trim("") == "" by { LastPiece(""); }
    }
  }

  lemma CleanHolds(records: seq<string>)
    ensures Holds(Text(records), records)
    ensures Text([]) == ""
  {
  }

  lemma OneMoreRecord(json: string -> bool, kept: map<nat, seq<string>>, r: string)
    requires Records(json, kept) && 0 in kept && ProperRecord(json, r)
    ensures Records(json, kept[0 := kept[0] + [r]])
  {
  }

  lemma TornHolds(json: string -> bool, records: seq<string>, r: string, n: nat)
    requires ProperRecord(json, r) && n <= |r|
    ensures Holds(Text(records) + r[..n], records)
  {
    var file := Text(records) + r[..n];
    assert file[|Text(records)|..] == r[..n];
  }

  lemma {:induction false} StartingActive<V>(kept: map<nat, seq<V>>, n: nat)
    requires 0 !in kept
    ensures Retained(kept[0 := []], n) == Retained(kept, n)
  {
    RetainedFrame(kept[0 := []], kept, n);
  }

  // The generations of `before` have all moved up one slot.
  ghost predicate MovedUp(before: map<nat, seq<string>>, after: map<nat, seq<string>>) {
    forall j: nat | 1 <= j < RETENTION :: Slot(after, j + 1) == Slot(before, j)
  }

  lemma RotatedSlots(before: map<nat, seq<string>>, dropped: map<nat, seq<string>>, moved: map<nat, seq<string>>,
                     after: map<nat, seq<string>>)
    requires dropped == before || dropped == before - {RETENTION}
    requires MovedUp(dropped, moved)
    requires 0 in before && 0 in moved && moved[0] == before[0]
    requires after == (moved - {0})[1 := moved[0]][0 := []]
    ensures MovedUp(before, after) && Slot(after, 1) == before[0] && Slot(after, 0) == []
  {
    forall j: nat | 1 <= j < RETENTION ensures Slot(after, j + 1) == Slot(before, j) {
      assert Slot(after, j + 1) == Slot(moved, j + 1);
      assert Slot(dropped, j) == Slot(before, j);
    }
  }

  lemma FirstAfterRotation(before: map<nat, seq<string>>, after: map<nat, seq<string>>, r: string)
    requires 0 in after && after[0] == []
    ensures MovedUp(before, after) ==> MovedUp(before, after[0 := after[0] + [r]])
    ensures Slot(after[0 := after[0] + [r]], 1) == Slot(after, 1) && after[0 := after[0] + [r]][0] == [r]
  {
  }

  class AuditLog {
    const json: string -> bool
    const reliable: bool
    // Slot 0 is the active file, slots 1 to 5 the rotations.
    var files: map<nat, string>
    var open: bool
    var healthy: bool
    // The complete records of each slot, those that rotation has dropped, and every record whose
    // write finished including its newline, in order.
    ghost var kept: map<nat, seq<string>>
    ghost var lost: seq<string>
    ghost var finished: seq<string>

    constructor (json: string -> bool, reliable: bool)
      ensures Valid() && files == map[] && finished == [] && !open
      ensures this.json == json && this.reliable == reliable
    {
      this.json, this.reliable := json, reliable;
      files, kept, open, healthy := map[], map[], false, false;
      lost, finished := [], [];
    }

    // A new process over whatever an earlier one has left, at any point and after any fault.
    constructor After(previous: AuditLog, reliable: bool)
      requires previous.Valid()
      ensures Valid() && !open && this.reliable == reliable && this.json == previous.json
      ensures files == previous.files && kept == previous.kept && lost == previous.lost && finished == previous.finished
    {
      this.json, this.reliable := previous.json, reliable;
      files, open, healthy := previous.files, false, false;
      kept, lost, finished := previous.kept, previous.lost, previous.finished;
    }

    ghost predicate Valid()
      reads this
    {
      && files.Keys == kept.Keys
      && Records(json, kept)
      && (forall i | i in files :: i <= RETENTION && (i > 0 ==> files[i] == Text(kept[i])))
      && (0 in files ==> Holds(files[0], kept[0]))
      && (open && healthy ==> Clean())
      && finished == lost + Retained(kept, RETENTION)
    }

    ghost predicate Clean()
      requires files.Keys == kept.Keys
      reads this
    {
      0 in files && files[0] == Text(kept[0])
    }

    method Fault() returns (fault: bool)
      ensures reliable ==> !fault
    {
      fault := *;
      fault := fault && !reliable;
    }

    // os.Rename of one slot to the next; the destination is never occupied.
    method MoveUp(i: nat) returns (ok: bool)
      requires Valid() && i < RETENTION && i in files && i + 1 !in files && !open
      requires files[i] == Text(kept[i])
      modifies this`files, this`kept
      ensures Valid()
      ensures (files == old(files) && kept == old(kept)) ||
              (files == (old(files) - {i})[i + 1 := old(files)[i]] && kept == (old(kept) - {i})[i + 1 := old(kept)[i]])
      ensures ok ==> i !in files
      ensures reliable ==> ok
    {
      hide ProperRecord, Text, Holds, Retained;
      var before := Fault();
      if before {
        return false;
      }
      MovingUpKeepsOrder(kept, i, RETENTION);
      files := (files - {i})[i + 1 := files[i]];
      kept := (kept - {i})[i + 1 := kept[i]];
      var after := Fault();
      ok := !after;
    }

    // os.Remove of the oldest rotation: the only step that gives up records.
    method RemoveOldest() returns (ok: bool)
      requires Valid() && !open
      modifies this`files, this`kept, this`lost
      ensures Valid()
      ensures (files == old(files) && kept == old(kept) && lost == old(lost)) ||
              (files == old(files) - {RETENTION} && kept == old(kept) - {RETENTION} && lost == old(lost) + Slot(old(kept), RETENTION))
      ensures ok ==> RETENTION !in files
      ensures reliable ==> ok && lost == old(lost) + Slot(old(kept), RETENTION)
    {
      hide ProperRecord, Text, Holds, Retained;
      var before := Fault();
      if before {
        return false;
      }
      if RETENTION in files {
        DroppingOldest(kept, RETENTION);
        lost := lost + kept[RETENTION];
        kept := kept - {RETENTION};
        files := files - {RETENTION};
      }
      var after := Fault();
      ok := !after;
    }

    // One turn of the rename loop of rotateLocked: a slot that is not there is skipped.
    method MoveRotation(index: nat) returns (ok: bool)
      requires Valid() && !open && 1 <= index < RETENTION && index + 1 !in files
      modifies this`files, this`kept
      ensures Valid()
      ensures (0 in files <==> 0 in old(files)) && (0 in files ==> files[0] == old(files)[0] && kept[0] == old(kept)[0])
      ensures ok ==> index !in files && Slot(kept, index + 1) == Slot(old(kept), index)
      ensures forall j: nat | j != index && j != index + 1 :: Slot(kept, j) == Slot(old(kept), j)
      ensures reliable ==> ok
    {
      hide ProperRecord, Text, Holds, Retained, Records;
      ok := true;
      if index in files {
        ok := MoveUp(index);
      }
      var unsynced := Fault();
      ok := ok && !unsynced;
    }

    method MoveRotations() returns (ok: bool)
      requires Valid() && !open && RETENTION !in files
      modifies this`files, this`kept
      ensures Valid()
      ensures (0 in files <==> 0 in old(files)) && (0 in files ==> files[0] == old(files)[0] && kept[0] == old(kept)[0])
      ensures ok ==> 1 !in files && MovedUp(old(kept), kept)
      ensures reliable ==> ok
    {
      hide ProperRecord, Text, Holds, Retained, Records;
      var index := RETENTION - 1;
      while index >= 1
        invariant 0 <= index < RETENTION && Valid() && index + 1 !in files
        invariant 0 in files <==> 0 in old(files)
        invariant 0 in files ==> files[0] == old(files)[0] && kept[0] == old(kept)[0]
        invariant forall j: nat | index < j < RETENTION :: Slot(kept, j + 1) == Slot(old(kept), j)
        invariant forall j: nat | j <= index :: Slot(kept, j) == Slot(old(kept), j)
      {
        var moved := MoveRotation(index);
        if !moved {
          return false;
        }
        index := index - 1;
      }
      ok := true;
    }

    // openAuditFile: check and repair what is there, or start an empty file.
    method OpenAuditFile() returns (ok: bool)
      requires Valid() && !open
      modifies this`files, this`kept
      ensures Valid()
      ensures kept == if 0 in old(files) || 0 !in files then old(kept) else old(kept)[0 := []]
      ensures ok ==> Clean()
      ensures reliable ==> ok
    {
      hide ProperRecord, Text, Retained, Acceptable, Repaired, GoodLine, Lines;
      var before := Fault();
      if before {
        return false;
      }
      if 0 in files {
        NoNewlines(json, kept, 0);
        RepairLeavesRecords(json, files[0], kept[0]);
        var accepted, repaired := ValidateBytes(json, files[0]);
        if !accepted {
          return false;
        }
        CleanHolds(kept[0]);
        files := files[0 := repaired];
      } else {
        StartingActive(kept, RETENTION);
        CleanHolds([]);
        files := files[0 := ""];
        kept := kept[0 := []];
      }
      var after := Fault();
      ok := !after;
    }

    // rotateLocked: drop slot 5, move every generation up one, start a new active file. Whatever
    // step fails, the slots stay in age order and only what was in slot 5 can be given up.
    method Rotate() returns (ok: bool)
      requires Valid() && open && healthy
      modifies this`files, this`kept, this`lost, this`open
      ensures Valid()
      ensures lost == old(lost) || lost == old(lost) + Slot(old(kept), RETENTION)
      ensures ok <==> open
      ensures ok ==> 0 in files && files[0] == "" && kept[0] == []
      ensures ok ==> MovedUp(old(kept), kept) && Slot(kept, 1) == old(kept)[0]
      ensures reliable ==> ok && lost == old(lost) + Slot(old(kept), RETENTION)
    {
      hide ProperRecord, Holds, Retained, Records, Text, MovedUp;
      ghost var before := kept;
      var unclosed := Fault();
      open := false;
      if unclosed {
        return false;
      }
      ok := RemoveOldest();
      if !ok {
        return;
      }
      assert Clean();
      ghost var dropped := kept;
      ok := MoveRotations();
      if !ok {
        return;
      }
      ghost var moved := kept;
      ok := MoveUp(0);
      if !ok {
        return;
      }
      CleanHolds([]);
      ok := OpenAuditFile();
      open := ok;
      if ok {
        RotatedSlots(before, dropped, moved, kept);
      }
    }

    // Record: append one encoded event. It reports success only once the whole line is down; any
    // failure leaves the log unhealthy, so that nothing is ever written after a torn line.
    method Record(encodable: bool, encoded: string) returns (ok: bool)
      requires Valid() && (encodable ==> ProperRecord(json, encoded))
      modifies this`files, this`kept, this`lost, this`finished, this`open, this`healthy
      ensures Valid()
      ensures ok ==> finished == old(finished) + [encoded] && open && healthy
      ensures ok ==> |files[0]| <= MAX_BYTES || files[0] == encoded + "\n"
      ensures !ok ==> (finished == old(finished) || finished == old(finished) + [encoded]) && !(open && healthy)
      ensures lost == old(lost) || lost == old(lost) + Slot(old(kept), RETENTION)
      ensures !old(open && healthy) ==> !ok && finished == old(finished) && files == old(files)
      ensures reliable && encodable && old(open && healthy) ==> ok
      // While the line fits, nothing rotates.
      ensures reliable && ok && |old(files)[0]| + |encoded| + 1 <= 0x100_0000 ==>
                && lost == old(lost) && files == old(files)[0 := old(files)[0] + encoded + "\n"]
                && kept == old(kept)[0 := old(kept)[0] + [encoded]]
      // Otherwise everything moves up once and the line starts a new file.
      ensures reliable && ok && |old(files)[0]| + |encoded| + 1 > 0x100_0000 ==>
                && lost == old(lost) + Slot(old(kept), 5) && MovedUp(old(kept), kept)
                && Slot(kept, 1) == old(kept)[0] && kept[0] == [encoded] && files[0] == encoded + "\n"
    {
      hide ProperRecord, Holds, Retained, Records, Text, MovedUp, Slot;
      if !healthy || !open {
        return false;
      }
      if !encodable {
        healthy := false;
        return false;
      }
      var statFails := Fault();
      if statFails || |files[0]| + |encoded| + 1 > MAX_BYTES {
        var rotated := Rotate();
        if !rotated {
          healthy := false;
          return false;
        }
        FirstAfterRotation(old(kept), kept, encoded);
        assert files[0] + encoded + "\n" == encoded + "\n";
      }
      ok := Append(encoded);
    }

    // A write that fails part of the way, at the latest before the newline.
    method WriteTorn(encoded: string)
      requires Valid() && open && healthy && ProperRecord(json, encoded)
      modifies this`files, this`healthy
      ensures Valid() && !healthy
    {
      hide Retained, Text, Records, Holds, ProperRecord;
      var n: nat :| n <= |encoded|;
      TornHolds(json, kept[0], encoded, n);
      files := files[0 := files[0] + encoded[..n]];
      healthy := false;
    }

    // A write that takes the whole line.
    method WriteLine(encoded: string)
      requires Valid() && open && healthy && ProperRecord(json, encoded)
      modifies this`files, this`kept, this`finished
      ensures Valid() && files == old(files)[0 := old(files)[0] + encoded + "\n"] && finished == old(finished) + [encoded]
      ensures kept == old(kept)[0 := old(kept)[0] + [encoded]]
    {
      hide Retained, Text, Records, Holds, ProperRecord;
      TextAppend(kept[0], encoded);
      AppendingToActive(kept, encoded, RETENTION);
      CleanHolds(kept[0] + [encoded]);
      OneMoreRecord(json, kept, encoded);
      files := files[0 := files[0] + encoded + "\n"];
      kept := kept[0 := kept[0] + [encoded]];
      finished := finished + [encoded];
    }

    // The write and the sync of Record.
    method Append(encoded: string) returns (ok: bool)
      requires Valid() && open && healthy && ProperRecord(json, encoded)
      modifies this`files, this`kept, this`finished, this`healthy
      ensures Valid()
      ensures ok ==> finished == old(finished) + [encoded] && healthy
      ensures ok ==> files == old(files)[0 := old(files)[0] + encoded + "\n"] && kept == old(kept)[0 := old(kept)[0] + [encoded]]
      ensures !ok ==> (finished == old(finished) || finished == old(finished) + [encoded]) && !healthy
      ensures reliable ==> ok
    {
      hide Retained, Text, Records, Holds, ProperRecord;
      var torn := Fault();
      if torn {
        WriteTorn(encoded);
        return false;
      }
      WriteLine(encoded);
      var unsynced := Fault();
      healthy := !unsynced;
      ok := healthy;
    }

    // newAuditLog in a new process, after the previous one stopped at any point. It accepts
    // whatever was left, and the active file then parses to exactly its finished records.
    method Reopen() returns (ok: bool)
      requires Valid()
      modifies this`files, this`kept, this`open, this`healthy
      ensures Valid() && (ok <==> open)
      ensures ok ==> healthy && 0 in files && Lines(files[0]) == kept[0] && Tail(files[0]) == ""
      ensures kept == old(kept) || kept == old(kept)[0 := []]
      ensures reliable ==> ok
    {
      hide ProperRecord, Holds, Retained, Text, Lines, Tail;
      open := false;
      healthy := false;
      var unprotected := Fault();
      if unprotected {
        return false;
      }
      ok := OpenAuditFile();
      if ok {
        NoNewlines(json, kept, 0);
        ReadBack(kept[0], "");
        assert Text(kept[0]) + "" == files[0];
      }
      open := ok;
      healthy := ok;
    }
  }

  // Whatever became of the log, torn line or interrupted rotation included, a process that meets no fault of
  // its own opens it again with every finished record in place.
  method Restart(previous: AuditLog) returns (log: AuditLog)
    requires previous.Valid()
    ensures fresh(log) && log.Valid() && log.open && log.healthy
    ensures log.lost == previous.lost && log.finished == previous.finished
    ensures 0 in log.files && Lines(log.files[0]) == log.kept[0] && Tail(log.files[0]) == ""
    ensures log.kept == previous.kept || log.kept == previous.kept[0 := []]
  {
    hide Text, Lines, Tail, Retained, Holds, Records;
    log := new AuditLog.After(previous, true);
    var ok := log.Reopen();
    assert ok;
  }

  // However many events there are: while all of them fit into the active file, nothing rotates, nothing is
  // lost and the file has grown by exactly their lines.
  method RecordAll(log: AuditLog, records: seq<string>)
    requires log.Valid() && log.reliable && log.open && log.healthy
    requires forall i | 0 <= i < |records| :: ProperRecord(log.json, records[i])
    requires |log.files[0]| + |Text(records)| <= 0x100_0000
    modifies log`files, log`kept, log`lost, log`finished, log`open, log`healthy
    ensures log.Valid() && log.open && log.healthy && log.lost == old(log.lost)
    ensures log.files == old(log.files)[0 := old(log.files)[0] + Text(records)]
    ensures log.kept == old(log.kept)[0 := old(log.kept)[0] + records]
  {
    hide ProperRecord, Holds, Retained, Records, MovedUp, Text, Slot;
    ghost var first, before := log.files, log.kept;
    var i := 0;
    assert records[..0] == [] && first[0] + "" == first[0] && before[0] + [] == before[0];
    assert first[0 := first[0]] == first && before[0 := before[0]] == before;
    NoText();
    while i < |records|
      invariant 0 <= i <= |records| && log.Valid() && log.open && log.healthy && log.lost == old(log.lost)
      invariant log.files == first[0 := first[0] + Text(records[..i])]
      invariant log.kept == before[0 := before[0] + records[..i]]
    {
      assert records[..i + 1] == records[..i] + [records[i]];
      TextAppend(records[..i], records[i]);
      TextPrefix(records, i + 1);
      Longer(first[0], Text(records[..i]), records[i]);
      assert before[0] + records[..i] + [records[i]] == before[0] + records[..i + 1];
      var ok := log.Record(true, records[i]);
      i := i + 1;
    }
    assert records[..i] == records;
  }

  lemma NoText()
    ensures Text([]) == ""
  {
  }

  lemma Longer(file: string, text: string, r: string)
    ensures file + text + r + "\n" == file + (text + r + "\n")
  {
  }

  lemma {:induction false} TextPrefix(records: seq<string>, n: nat)
    requires n <= |records|
    ensures |Text(records[..n])| <= |Text(records)|
    decreases |records| - n
  {
    if n < |records| {
      TextPrefix(records, n + 1);
      assert records[..n + 1] == records[..n] + [records[n]];
      TextAppend(records[..n], records[n]);
    } else {
      assert records[..n] == records;
    }
  }
}

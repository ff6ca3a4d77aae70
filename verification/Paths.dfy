// Names and slash paths as the managed tree accepts them (utils/path.go).
module Paths {
  datatype Option<+T> = None | Some(value: T)

  // Names with this prefix are kept for the upload store's own stage files.
  const UPLOAD_STAGE_PREFIX := ".fileharbor-upload-"
  const UPLOAD_STAGE_SUFFIX := ".partial"

  predicate HasSuffix(s: string, t: string) {
    |t| <= |s| && s[|s| - |t|..] == t
  }

  function TrimPrefix(s: string, p: string): string {
    if p <= s then s[|p|..] else s
  }

  function TrimSuffix(s: string, t: string): string {
    if HasSuffix(s, t) then s[..|s| - |t|] else s
  }

  predicate ForbiddenChar(c: char) {
    c < ' ' || c == '\U{7F}' || c in "/\\<>:\"|?*"
  }

  // Everything before the first dot, in upper case.
  function DeviceStem(name: string): string {
    if name == "" || name[0] == '.' then ""
    else [if 'a' <= name[0] <= 'z' then name[0] - 'a' + 'A' else name[0]] + DeviceStem(name[1..])
  }

  predicate ReservedDevice(stem: string) {
    || stem in {"CON", "PRN", "AUX", "NUL"}
    || (|stem| == 4 && stem[..3] in {"COM", "LPT"} && '1' <= stem[3] <= '9')
  }

  predicate ValidLeafName(name: string) {
    && name != "" && name != "." && name != ".."
    && !(UPLOAD_STAGE_PREFIX <= name)
    && (forall i | 0 <= i < |name| :: !ForbiddenChar(name[i]))
    && name[|name| - 1] != '.' && name[|name| - 1] != ' '
    && !ReservedDevice(DeviceStem(name))
  }

  function Slashed(s: string): (r: string)
    ensures |r| == |s|
    ensures forall i | 0 <= i < |s| :: r[i] == if s[i] == '\\' then '/' else s[i]
  {
    seq(|s|, i requires 0 <= i < |s| => if s[i] == '\\' then '/' else s[i])
  }

  predicate SlashFree(s: string) { '/' !in s }

  function Split(s: string): (parts: seq<string>)
    ensures |parts| >= 1
    ensures forall i | 0 <= i < |parts| :: SlashFree(parts[i])
  {
    if s == "" then [""]
    else
      var rest := Split(s[1..]);
      if s[0] == '/' then [""] + rest else [[s[0]] + rest[0]] + rest[1..]
  }

  function Join(parts: seq<string>): string {
    if parts == [] then ""
    else if |parts| == 1 then parts[0]
    else parts[0] + "/" + Join(parts[1..])
  }

  lemma {:induction false} SplitPrefix(head: string, rest: string)
    requires SlashFree(head)
    ensures Split(head + "/" + rest) == [head] + Split(rest)
  {
    var s := head + "/" + rest;
    if head == "" {
      assert s[1..] == rest;
    } else {
      assert head[0] in head;
      assert s[1..] == head[1..] + "/" + rest;
      assert SlashFree(head[1..]);
      SplitPrefix(head[1..], rest);
      assert [s[0]] + head[1..] == head;
    }
  }

  lemma {:induction false} SplitSlashFree(s: string)
    requires SlashFree(s)
    ensures Split(s) == [s]
  {
    if s != "" {
      assert s[0] in s && SlashFree(s[1..]);
      SplitSlashFree(s[1..]);
      assert [s[0]] + s[1..] == s;
    }
  }

  // Splitting undoes joining, so a cleaned path has exactly the segments it was built from.
  lemma {:induction false} SplitJoin(parts: seq<string>)
    requires parts != [] && forall i | 0 <= i < |parts| :: SlashFree(parts[i])
    ensures Split(Join(parts)) == parts
  {
    if |parts| == 1 {
      SplitSlashFree(parts[0]);
    } else {
      SplitPrefix(parts[0], Join(parts[1..]));
      SplitJoin(parts[1..]);
    }
  }

  // A name put after a path is one more segment.
  lemma {:induction false} SplitAppend(path: string, name: string)
    requires SlashFree(name)
    ensures Split(path + "/" + name) == Split(path) + [name]
  {
    if path == "" {
      SplitSlashFree(name);
      assert ("" + "/" + name)[1..] == name;
    } else {
      assert (path + "/" + name)[1..] == path[1..] + "/" + name;
      SplitAppend(path[1..], name);
    }
  }

  // One segment of the lexical reduction of path.Clean for a path that is not rooted.
  function Push(stack: seq<string>, segment: string): seq<string> {
    if segment == "" || segment == "." then stack
    else if segment == ".." && stack != [] && stack[|stack| - 1] != ".." then stack[..|stack| - 1]
    else stack + [segment]
  }

  function Reduce(segments: seq<string>): seq<string> {
    if segments == [] then []
    else Push(Reduce(segments[..|segments| - 1]), segments[|segments| - 1])
  }

  function Clean(path: string): string {
    var reduced := Reduce(Split(path));
    if reduced == [] then "." else Join(reduced)
  }

  // A reduced list is a block of ".." followed by ordinary segments.
  ghost predicate Reduced(s: seq<string>) {
    && (forall i | 0 <= i < |s| :: s[i] != "" && s[i] != ".")
    && (forall i | 0 < i < |s| :: s[i] == ".." ==> s[i - 1] == "..")
  }

  lemma {:induction false} ReduceIsReduced(segments: seq<string>)
    ensures Reduced(Reduce(segments))
    ensures forall s | s in Reduce(segments) :: s in segments
  {
    if segments != [] {
      ReduceIsReduced(segments[..|segments| - 1]);
    }
  }

  lemma {:induction false} ReduceFixed(s: seq<string>)
    requires Reduced(s)
    ensures Reduce(s) == s
  {
    if s != [] {
      var init := s[..|s| - 1];
      ReduceFixed(init);
      assert init + [s[|s| - 1]] == s;
    }
  }

  lemma AllOrdinary(s: seq<string>)
    requires Reduced(s) && s != [] && s[0] != ".."
    ensures forall i | 0 <= i < |s| :: s[i] != ".."
  {
    var i := 1;
    while i < |s|
      invariant 1 <= i <= |s|
      invariant forall k | 0 <= k < i :: s[k] != ".."
    {
      assert s[i - 1] != "..";
      i := i + 1;
    }
  }

  // utils.CleanRelative: a root-relative path, rejected rather than repaired.
  function CleanRelative(raw: string, allowRoot: bool): Option<string> {
    if '\0' in raw then None
    else
      var path := Slashed(raw);
      if path == "" || path == "." then (if allowRoot then Some("") else None)
      else if path[0] == '/' || ':' in path then None
      else if exists part | part in Split(path) :: !ValidLeafName(part) then None
      else
        var cleaned := Clean(path);
        if cleaned == "." || cleaned == ".." || "../" <= cleaned then None else Some(cleaned)
  }

  lemma JoinAfterSlash(rest: seq<string>)
    requires rest != []
    ensures Join([""] + rest) == "/" + Join(rest)
  {
    assert ([""] + rest)[1..] == rest;
    assert "" + "/" + Join(rest) == "/" + Join(rest);
  }

  lemma JoinLonger(c: char, rest: seq<string>)
    requires rest != []
    ensures Join([[c] + rest[0]] + rest[1..]) == [c] + Join(rest)
  {
    var parts := [[c] + rest[0]] + rest[1..];
    assert parts[1..] == rest[1..];
    if |rest| > 1 {
      assert [c] + rest[0] + "/" + Join(rest[1..]) == [c] + (rest[0] + "/" + Join(rest[1..]));
    }
  }

  lemma {:induction false} JoinSplit(s: string)
    ensures Join(Split(s)) == s
  {
    if s != "" {
      JoinSplit(s[1..]);
      var rest := Split(s[1..]);
      assert [s[0]] + s[1..] == s;
      if s[0] == '/' {
        JoinAfterSlash(rest);
      } else {
        JoinLonger(s[0], rest);
      }
    }
  }

  lemma ValidPartsStay(path: string)
    requires forall part | part in Split(path) :: ValidLeafName(part)
    ensures Clean(path) == path
  {
    var parts := Split(path);
    assert forall i | 0 <= i < |parts| :: parts[i] in parts;
    assert Reduced(parts);
    ReduceFixed(parts);
    JoinSplit(path);
  }

  // An accepted path is never altered beyond its backslashes, so cleaning twice is cleaning once.
  lemma CleanRelativeOnlyFlipsSlashes(raw: string, allowRoot: bool)
    requires CleanRelative(raw, allowRoot).Some?
    ensures var cleaned := CleanRelative(raw, allowRoot).value;
            && cleaned == (if Slashed(raw) == "." then "" else Slashed(raw))
            && (cleaned != "" ==> forall part | part in Split(cleaned) :: ValidLeafName(part))
            && CleanRelative(cleaned, true) == Some(cleaned)
  {
    var path := Slashed(raw);
    if path != "" && path != "." {
      ValidPartsStay(path);
      assert Slashed(path) == path;
      assert forall i | 0 <= i < |path| :: path[i] == '\0' ==> raw[i] == '\0';
    } else {
      assert Slashed("") == "";
    }
  }

  // ----- Which names and paths are accepted -----

  lemma {:induction false} CharOfPart(s: string, c: char)
    requires c in s && c != '/'
    ensures exists part :: part in Split(s) && c in part
  {
    var rest := Split(s[1..]);
    if s[0] == c {
      assert c in Split(s)[0];
    } else {
      CharOfPart(s[1..], c);
      var part :| part in rest && c in part;
      if s[0] == '/' {
        assert part in [""] + rest;
      } else if part == rest[0] {
        assert c in Split(s)[0];
      } else {
        assert part in rest[1..];
      }
    }
  }

  lemma BadChar(path: string, c: char)
    requires ForbiddenChar(c) && c != '/'
    ensures c in path ==> exists part :: part in Split(path) && !ValidLeafName(part)
  {
    if c in path {
      CharOfPart(path, c);
      var part :| part in Split(path) && c in part;
      var i :| 0 <= i < |part| && part[i] == c;
      assert !ValidLeafName(part);
    }
  }

  lemma BadStart(path: string)
    ensures path != "" && path[0] == '/' ==> exists part :: part in Split(path) && !ValidLeafName(part)
    ensures path == ".." || "../" <= path ==> exists part :: part in Split(path) && !ValidLeafName(part)
  {
    if path != "" && path[0] == '/' {
      assert Split(path)[0] == "" && "" in Split(path) && !ValidLeafName("");
    }
    if path == ".." || "../" <= path {
      UpFirst(path);
      assert ".." in Split(path) && !ValidLeafName("..");
    }
  }

  // Exactly the paths all of whose segments are valid names, with either slash between them, and the root
  // where it is allowed.
  lemma CleanRelativeExactly(raw: string, allowRoot: bool)
    ensures CleanRelative(raw, allowRoot).Some? <==>
              if Slashed(raw) == "" || Slashed(raw) == "." then allowRoot
              else forall part | part in Split(Slashed(raw)) :: ValidLeafName(part)
  {
    hide ValidLeafName;
    var path := Slashed(raw);
    NulStays(raw);
    BadChar(path, ':');
    BadChar(path, '\0');
    BadStart(path);
    if forall part | part in Split(path) :: ValidLeafName(part) {
      ValidPartsStay(path);
    }
  }

  lemma NulStays(raw: string)
    ensures '\0' in raw <==> '\0' in Slashed(raw)
  {
    if '\0' in raw {
      var i :| 0 <= i < |raw| && raw[i] == '\0';
      assert Slashed(raw)[i] == '\0';
    }
    if '\0' in Slashed(raw) {
      var i :| 0 <= i < |raw| && Slashed(raw)[i] == '\0';
      assert raw[i] == '\0';
    }
  }

  lemma UpFirst(path: string)
    requires path == ".." || "../" <= path
    ensures Split(path)[0] == ".."
  {
    if path == ".." {
      SplitSlashFree(path);
    } else {
      SplitPrefix("..", path[3..]);
      assert path == ".." + "/" + path[3..];
    }
  }

  lemma {:induction false} StemOfPlain(name: string, n: nat)
    requires n <= |name| && (n < |name| ==> name[n] == '.') && forall i | 0 <= i < n :: name[i] != '.'
    ensures |DeviceStem(name)| == n
    ensures forall i | 0 <= i < n ::
              DeviceStem(name)[i] == if 'a' <= name[i] <= 'z' then name[i] - 'a' + 'A' else name[i]
  {
    if n > 0 {
      StemOfPlain(name[1..], n - 1);
    }
  }

  lemma ReservedExactly(device: string, digit: char)
    requires '1' <= digit <= '9'
    requires device in {"CON", "PRN", "AUX", "NUL"} || device == "COM" + [digit] || device == "LPT" + [digit]
    ensures ReservedDevice(device)
  {
    assert ("COM" + [digit])[..3] == "COM" && ("LPT" + [digit])[..3] == "LPT";
  }

  // What Windows takes for a device is refused whatever its case and extension.
  lemma DevicesAreRefused(name: string, device: string, digit: char)
    requires '1' <= digit <= '9' && |device| <= |name|
    requires device in {"CON", "PRN", "AUX", "NUL"} || device == "COM" + [digit] || device == "LPT" + [digit]
    requires forall i | 0 <= i < |device| :: name[i] == device[i] || ('a' <= name[i] <= 'z' && name[i] - 'a' + 'A' == device[i])
    requires |device| < |name| ==> name[|device|] == '.'
    ensures !ValidLeafName(name)
  {
    var n := |device|;
    forall i | 0 <= i < n ensures name[i] != '.' && !('a' <= device[i] <= 'z') {
    }
    StemOfPlain(name, n);
    assert DeviceStem(name) == device;
    ReservedExactly(device, digit);
  }

  // So are empty names, dots, names with a character no file system takes everywhere, names that end in a dot or
  // blank, and what the upload store keeps for itself.
  lemma OthersAreRefused(name: string)
    ensures name in {"", ".", ".."} || name == ".fileharbor-upload-" + TrimPrefix(name, ".fileharbor-upload-") ==> !ValidLeafName(name)
    ensures (exists c :: c in name && (c < ' ' || c == '\U{7F}' || c in "/\\<>:\"|?*")) ==> !ValidLeafName(name)
    ensures name != "" && name[|name| - 1] in ". " ==> !ValidLeafName(name)
  {
    if c :| c in name && (c < ' ' || c == '\U{7F}' || c in "/\\<>:\"|?*") {
      var i :| 0 <= i < |name| && name[i] == c;
      assert ForbiddenChar(name[i]);
    }
  }

  // An ordinary name of letters, digits, spaces, dots, hyphens and underscores is accepted.
  lemma OrdinaryIsAccepted(name: string)
    requires |name| >= 5 && name[0] != '.' && name[|name| - 1] !in ". " && '.' !in name[..5]
    requires forall i | 0 <= i < |name| ::
               'a' <= name[i] <= 'z' || 'A' <= name[i] <= 'Z' || '0' <= name[i] <= '9' || name[i] in " .-_"
    ensures ValidLeafName(name)
  {
    forall i | 0 <= i < 5 ensures name[i] != '.' {
      assert name[i] == name[..5][i] && name[..5][i] in name[..5];
    }
    LongStem(name, 5);
    forall i | 0 <= i < |name| ensures !ForbiddenChar(name[i]) {
    }
  }

  lemma {:induction false} LongStem(name: string, n: nat)
    requires n <= |name| && forall i | 0 <= i < n :: name[i] != '.'
    ensures |DeviceStem(name)| >= n
  {
    if n > 0 {
      LongStem(name[1..], n - 1);
    }
  }
}

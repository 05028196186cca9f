/** Finding the active world's folder name in `GameUserSettings.ini`: the
    value of the first `DedicatedServerName=` line that follows the
    `[/Script/Pal.PalGameLocalSettings]` section header. The file is given as
    its sequence of lines, as Python's text-mode line iteration yields them. */
module ActiveId {
  import opened Options
  import opened Text

  const SectionHeader := "[/Script/Pal.PalGameLocalSettings]"
  const ServerNameKey := "DedicatedServerName="

  /** A stripped line that sets the server name. */
  predicate IsKeyLine(line: string) {
    StartsWith(line, ServerNameKey)
  }

  /** `line.split("=", 1)[1]` of a key line. */
  function KeyValue(line: string): string
    requires IsKeyLine(line)
  {
    assert line[|ServerNameKey| - 1] == ServerNameKey[|ServerNameKey| - 1] == '=';
    AfterFirst(line, '=')
  }

  /** The key contains no `=` before its own, so the value is everything
      after the key, whatever `=` signs it holds. */
  lemma KeyValueIsRestOfLine(line: string)
    requires IsKeyLine(line)
    ensures KeyValue(line) == line[|ServerNameKey|..]
  {
    var name := ServerNameKey[..|ServerNameKey| - 1];
    assert '=' !in name;
    assert line == name + ['='] + line[|ServerNameKey|..];
    AfterFirstPastPrefix(name, '=', line[|ServerNameKey|..]);
  }

  /** Every line of the file, stripped as the loop strips it. */
  function StripAll(lines: seq<string>): (r: seq<string>)
    ensures |r| == |lines|
    ensures forall i :: 0 <= i < |lines| ==> r[i] == Strip(lines[i])
  {
    seq(|lines|, i requires 0 <= i < |lines| => Strip(lines[i]))
  }

  /** The result of scanning the stripped lines `lines`, where `inside` says
      whether the section header has already been seen. The flag is only
      ever set, never reset. */
  function Scan(lines: seq<string>, inside: bool): Option<string> {
    if lines == [] then None
    else if lines[0] == SectionHeader then Scan(lines[1..], true)
    else if inside && IsKeyLine(lines[0]) then Some(KeyValue(lines[0]))
    else Scan(lines[1..], inside)
  }

  /** The active id the file names, `None` when it names none. */
  function ActiveIdIn(lines: seq<string>): Option<string> {
    Scan(StripAll(lines), false)
  }

  /** The startup choice of the active id: the id found in the settings
      file is kept when it is non-empty and names an entry of the saves
      folder; otherwise the user's stripped manual entry is taken, and that
      entry is not checked. */
  function ResolveActiveId(found: Option<string>, existing: set<string>, manualEntry: string): (id: string)
    ensures found.Some? && found.value != "" && found.value in existing ==> id == found.value
    ensures id in existing || id == Strip(manualEntry)
    ensures !(found.Some? && found.value != "" && found.value in existing) ==> id == Strip(manualEntry)
    ensures id != Strip(manualEntry) ==> found == Some(id)
  {
    if found.None? || found.value == "" || found.value !in existing then Strip(manualEntry) else found.value
  }

  /** The scan over the file's lines, with its `inside_section` flag and its
      early exit at the first matching line. */
  method ScanActiveId(lines: seq<string>) returns (id: Option<string>)
    ensures id == ActiveIdIn(lines)
  {
    id := None;
    var insideSection := false;
    var i := 0;
    ghost var stripped := StripAll(lines);
    while i < |lines|
      invariant 0 <= i <= |lines|
      invariant ActiveIdIn(lines) == Scan(stripped[i..], insideSection)
    {
      assert stripped[i..][0] == stripped[i] && stripped[i..][1..] == stripped[i + 1..];
      var line := Strip(lines[i]);
      if line == SectionHeader {
        insideSection := true;
      } else if insideSection && IsKeyLine(line) {
        id := Some(KeyValue(line));
        return;
      }
      i := i + 1;
    }
  }

  /** The value of the `inside_section` flag when line `j` is reached,
      `inside` being its value before `lines`. */
  function FlagAt(lines: seq<string>, inside: bool, j: nat): bool
    requires j <= |lines|
  {
    if j == 0 then inside else FlagAt(lines, inside, j - 1) || lines[j - 1] == SectionHeader
  }

  /** The flag is set at line `j` exactly when it was set before `lines` or
      some earlier line is the header: it is never reset. */
  lemma {:induction false} FlagAtMeansHeaderBefore(lines: seq<string>, inside: bool, j: nat)
    requires j <= |lines|
    ensures FlagAt(lines, inside, j) <==> inside || exists h :: 0 <= h < j && lines[h] == SectionHeader
  {
    if j > 0 {
      FlagAtMeansHeaderBefore(lines, inside, j - 1);
    }
  }

  /** Line `j` is one the scan would accept: a key line reached with the
      flag set. */
  predicate MatchAt(lines: seq<string>, inside: bool, j: nat) {
    j < |lines| && IsKeyLine(lines[j]) && FlagAt(lines, inside, j)
  }

  lemma KeyLineIsNotHeader(line: string)
    requires IsKeyLine(line)
    ensures line != SectionHeader
  {
    assert line[0] == 'D';
  }

  /** Dropping the first line sets the flag if that line was the header and
      moves every later flag one index down. */
  lemma {:induction false} FlagShift(lines: seq<string>, inside: bool, j: nat)
    requires j < |lines|
    ensures FlagAt(lines, inside, j + 1) == FlagAt(lines[1..], inside || lines[0] == SectionHeader, j)
  {
    if j > 0 {
      FlagShift(lines, inside, j - 1);
      assert lines[1..][j - 1] == lines[j];
    }
  }

  lemma MatchShift(lines: seq<string>, inside: bool, j: nat)
    requires lines != []
    ensures MatchAt(lines, inside, j + 1) == MatchAt(lines[1..], inside || lines[0] == SectionHeader, j)
  {
    if j + 1 < |lines| {
      FlagShift(lines, inside, j);
      assert lines[1..][j] == lines[j + 1];
    }
  }

  /** A matching first line is the scan's answer. */
  lemma ScanFirstLine(lines: seq<string>, inside: bool)
    requires MatchAt(lines, inside, 0)
    ensures Scan(lines, inside) == Some(lines[0][|ServerNameKey|..])
  {
    KeyLineIsNotHeader(lines[0]);
    KeyValueIsRestOfLine(lines[0]);
  }

  /** A first line that does not match is passed over, setting the flag if
      it is the header. */
  lemma ScanSkipsFirstLine(lines: seq<string>, inside: bool)
    requires lines != [] && !MatchAt(lines, inside, 0)
    ensures Scan(lines, inside) == Scan(lines[1..], inside || lines[0] == SectionHeader)
  {
  }

  /** The scan returns the text after the key on the first line that
      matches. */
  lemma {:induction false} ScanFindsFirstMatch(lines: seq<string>, inside: bool, j: nat)
    requires MatchAt(lines, inside, j)
    requires forall k :: 0 <= k < j ==> !MatchAt(lines, inside, k)
    ensures Scan(lines, inside) == Some(lines[j][|ServerNameKey|..])
  {
    if j == 0 {
      ScanFirstLine(lines, inside);
    } else {
      var inside' := inside || lines[0] == SectionHeader;
      ScanSkipsFirstLine(lines, inside);
      MatchShift(lines, inside, j - 1);
      forall k | 0 <= k < j - 1 ensures !MatchAt(lines[1..], inside', k) {
        MatchShift(lines, inside, k);
      }
      ScanFindsFirstMatch(lines[1..], inside', j - 1);
      assert lines[1..][j - 1] == lines[j];
    }
  }

  /** The scan finds nothing exactly when no line matches; then the active
      id stays `None`. */
  lemma {:induction false} ScanNoneIffNoMatch(lines: seq<string>, inside: bool)
    ensures Scan(lines, inside) == None <==> forall j :: 0 <= j < |lines| ==> !MatchAt(lines, inside, j)
  {
    if lines != [] {
      var inside' := inside || lines[0] == SectionHeader;
      ScanNoneIffNoMatch(lines[1..], inside');
      forall j | 0 <= j < |lines| - 1
        ensures MatchAt(lines, inside, j + 1) == MatchAt(lines[1..], inside', j)
      {
        MatchShift(lines, inside, j);
      }
      if MatchAt(lines, inside, 0) {
        ScanFirstLine(lines, inside);
      } else {
        ScanSkipsFirstLine(lines, inside);
        assert (forall j :: 0 <= j < |lines| ==> !MatchAt(lines, inside, j)) <==>
               (forall j :: 0 <= j < |lines| - 1 ==> !MatchAt(lines[1..], inside', j)) by {
          forall j | 0 < j < |lines| ensures MatchAt(lines, inside, j) == MatchAt(lines[1..], inside', j - 1) {
            MatchShift(lines, inside, j - 1);
          }
        }
      }
    }
  }

  /** A key line before the first header is ignored: no line before the
      header can be the one the scan accepts. */
  lemma KeyBeforeHeaderIgnored(lines: seq<string>, j: nat)
    requires j < |lines|
    requires forall h :: 0 <= h < j ==> lines[h] != SectionHeader
    ensures !MatchAt(lines, false, j)
  {
    FlagAtMeansHeaderBefore(lines, false, j);
  }

  /** The flag is never reset: a key line anywhere after a header counts,
      whatever sections lie between, once no earlier line matched. */
  lemma LaterSectionCounts(lines: seq<string>, h: nat, j: nat)
    requires h < j < |lines| && lines[h] == SectionHeader && IsKeyLine(lines[j])
    requires forall k :: 0 <= k < j ==> !MatchAt(lines, false, k)
    ensures Scan(lines, false) == Some(lines[j][|ServerNameKey|..])
  {
    FlagAtMeansHeaderBefore(lines, false, j);
    ScanFindsFirstMatch(lines, false, j);
  }

  /** For example, a file whose only key line precedes the header names no
      active id. */
  lemma EarlyKeyExample()
    ensures Scan(["DedicatedServerName=early", SectionHeader], false) == None
  {
    var lines := ["DedicatedServerName=early", SectionHeader];
    assert !IsKeyLine(lines[1]) by { assert lines[1][0] == '['; }
    ScanNoneIffNoMatch(lines, false);
  }

  /** For example, a key line in a later section counts, and its value keeps
      every `=` after the first. */
  lemma LaterSectionExample()
    ensures Scan([SectionHeader, "[Other]", "DedicatedServerName=a=b"], false) == Some("a=b")
  {
    var lines := [SectionHeader, "[Other]", "DedicatedServerName=a=b"];
    assert !IsKeyLine(lines[0]) by { assert lines[0][0] == '['; }
    assert !IsKeyLine(lines[1]) by { assert lines[1][0] == '['; }
    forall k | 0 <= k < 2 ensures !MatchAt(lines, false, k) { }
    LaterSectionCounts(lines, 0, 2);
    assert lines[2][|ServerNameKey|..] == "a=b";
  }
}

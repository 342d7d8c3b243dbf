/**
 * Operating-system facts (src/system.cpp): the uname fields, the
 * /etc/os-release parser, the distribution name/version selection and the
 * JSON object.
 */
module System {
  import opened Wrappers
  import opened Text
  import opened Json

  /** What uname(2) fills in when it succeeds. */
  datatype Uts = Uts(sysname: string, release: string)

  /**
   * KShell::splitArgs, which this model does not interpret: None when the
   * shell-quoting is malformed, the unquoted words otherwise.
   */
  type ArgSplitter = string -> Option<seq<string>>

  datatype System = System(uts: Option<Uts>, distroName: string, distroVersion: string)

  /** Does this os-release line start with the comment marker? */
  predicate IsComment(line: string) {
    |line| > 0 && line[0] == '#'
  }

  /**
   * One line of /etc/os-release: comments and lines whose '='-split does not
   * have exactly two parts yield nothing; otherwise the untrimmed key and the
   * trimmed value.
   */
  function Entry(line: string): Option<(string, string)> {
    if IsComment(line) then None
    else
      var comps := Split(line, '=');
      if |comps| != 2 then None else Some((comps[0], Trim(comps[1])))
  }

  /** How a line is read; Entry in this model, any function in the generic lemmas. */
  type EntryReader = string -> Option<(string, string)>

  /** The line assigns `key`. */
  predicate AssignsWith(read: EntryReader, line: string, key: string) {
    read(line).Some? && read(line).value.0 == key
  }

  predicate Assigns(line: string, key: string) {
    AssignsWith(Entry, line, key)
  }

  /** Line `i` assigns `key` the value `v`, and no later line assigns `key`. */
  predicate LastAssignmentWith(read: EntryReader, lines: seq<string>, key: string, v: string, i: int) {
    && 0 <= i < |lines|
    && read(lines[i]) == Some((key, v))
    && forall j :: i < j < |lines| ==> !AssignsWith(read, lines[j], key)
  }

  predicate LastAssignment(lines: seq<string>, key: string, v: string, i: int) {
    LastAssignmentWith(Entry, lines, key, v, i)
  }

  /** A line is used exactly when it is not a comment and holds exactly one '='. */
  lemma EntryShape(line: string)
    ensures Entry(line).Some? <==> !IsComment(line) && Count(line, '=') == 1
    ensures Entry(line).Some? ==> exists raw :: line == Entry(line).value.0 + "=" + raw
                                            && Entry(line).value.1 == Trim(raw)
  {
    if Entry(line).Some? {
      var comps := Split(line, '=');
      JoinSplit(line, '=');
      assert comps[1..] == [comps[1]];
      assert line == comps[0] + "=" + comps[1];
    }
  }

  /** The os-release loop over lines read by `read`, inserting in file order. */
  function ParseWith(read: EntryReader, lines: seq<string>): map<string, string> {
    if |lines| == 0 then map[]
    else
      var m := ParseWith(read, lines[..|lines| - 1]);
      match read(lines[|lines| - 1])
      case None => m
      case Some((k, v)) => m[k := v]
  }

  /** The os-release loop as the source runs it. */
  function Parse(lines: seq<string>): map<string, string> {
    ParseWith(Entry, lines)
  }

  lemma {:induction false} ParseWithKeys(read: EntryReader, lines: seq<string>, key: string)
    ensures key in ParseWith(read, lines) <==> exists i :: 0 <= i < |lines| && AssignsWith(read, lines[i], key)
  {
    if |lines| > 0 {
      var init := lines[..|lines| - 1];
      ParseWithKeys(read, init, key);
      assert forall i :: 0 <= i < |init| ==> init[i] == lines[i];
      if key in ParseWith(read, lines) && !AssignsWith(read, lines[|lines| - 1], key) {
        var i :| 0 <= i < |init| && AssignsWith(read, init[i], key);
        assert AssignsWith(read, lines[i], key);
      }
    }
  }

  lemma {:induction false} ParseWithLastWins(read: EntryReader, lines: seq<string>, key: string)
    requires key in ParseWith(read, lines)
    ensures exists i :: LastAssignmentWith(read, lines, key, ParseWith(read, lines)[key], i)
  {
    var n := |lines|;
    var init := lines[..n - 1];
    if AssignsWith(read, lines[n - 1], key) {
      assert LastAssignmentWith(read, lines, key, ParseWith(read, lines)[key], n - 1);
    } else {
      assert key in ParseWith(read, init) && ParseWith(read, lines)[key] == ParseWith(read, init)[key];
      ParseWithLastWins(read, init, key);
      var i :| LastAssignmentWith(read, init, key, ParseWith(read, init)[key], i);
      assert init[i] == lines[i];
      assert forall j :: i < j < n - 1 ==> init[j] == lines[j];
      assert LastAssignmentWith(read, lines, key, ParseWith(read, lines)[key], i);
    }
  }

  lemma {:induction false} LastAssignmentParsedWith(read: EntryReader, lines: seq<string>, key: string, v: string, i: int)
    requires LastAssignmentWith(read, lines, key, v, i)
    ensures key in ParseWith(read, lines) && ParseWith(read, lines)[key] == v
  {
    var n := |lines|;
    var init := lines[..n - 1];
    if i < n - 1 {
      assert init[i] == lines[i];
      assert forall j :: i < j < n - 1 ==> init[j] == lines[j];
      LastAssignmentParsedWith(read, init, key, v, i);
      assert !AssignsWith(read, lines[n - 1], key);
    }
  }

  /** A key is in the parsed map exactly when some usable line assigns it. */
  lemma ParseKeys(lines: seq<string>, key: string)
    ensures key in Parse(lines) <==> exists i :: 0 <= i < |lines| && Assigns(lines[i], key)
  {
    ParseWithKeys(Entry, lines, key);
  }

  /** The value a key maps to is the trimmed value of the LAST line assigning it. */
  lemma ParseLastWins(lines: seq<string>, key: string)
    ensures key in Parse(lines) ==> exists i :: LastAssignment(lines, key, Parse(lines)[key], i)
  {
    if key in Parse(lines) {
      ParseWithLastWins(Entry, lines, key);
      var i :| LastAssignmentWith(Entry, lines, key, ParseWith(Entry, lines)[key], i);
      assert LastAssignment(lines, key, Parse(lines)[key], i);
    }
  }

  /** Conversely, the value of the last line assigning a key is the value parsed for it. */
  lemma LastAssignmentParsed(lines: seq<string>, key: string)
    ensures forall v, i :: LastAssignment(lines, key, v, i) ==> key in Parse(lines) && Parse(lines)[key] == v
  {
    forall v, i | LastAssignment(lines, key, v, i)
      ensures key in Parse(lines) && Parse(lines)[key] == v
    {
      LastAssignmentParsedWith(Entry, lines, key, v, i);
    }
  }

  lemma {:induction false} IgnoredLineWith(read: EntryReader, a: seq<string>, line: string, b: seq<string>)
    requires read(line).None?
    ensures ParseWith(read, a + [line] + b) == ParseWith(read, a + b)
    decreases |b|
  {
    if |b| == 0 {
      assert a + [line] + b == a + [line];
      assert (a + [line])[..|a|] == a;
      assert a + b == a;
    } else {
      var b0 := b[..|b| - 1];
      IgnoredLineWith(read, a, line, b0);
      assert (a + [line] + b)[..|a + [line] + b| - 1] == a + [line] + b0;
      assert (a + b)[..|a + b| - 1] == a + b0;
    }
  }

  /** A comment line inserted anywhere leaves the parsed map unchanged. */
  lemma CommentLineIgnored(a: seq<string>, comment: string, b: seq<string>)
    requires IsComment(comment)
    ensures Parse(a + [comment] + b) == Parse(a + b)
  {
    IgnoredLineWith(Entry, a, comment, b);
  }

  /** A line `key=raw` with no further '=' assigns `key` the trimmed `raw`. */
  lemma EntryOfAssignment(key: string, raw: string)
    requires '=' !in key && '=' !in raw && !IsComment(key)
    ensures Entry(key + "=" + raw) == Some((key, Trim(raw)))
  {
    assert [key, raw][1..] == [raw];
    SplitJoin([key, raw], '=');
  }

  /** A later line `key=raw` overrides every earlier assignment of `key`. */
  lemma LaterLineWins(lines: seq<string>, key: string, raw: string)
    requires '=' !in key && '=' !in raw && !IsComment(key)
    ensures key in Parse(lines + [key + "=" + raw]) && Parse(lines + [key + "=" + raw])[key] == Trim(raw)
  {
    EntryOfAssignment(key, raw);
    assert (lines + [key + "=" + raw])[..|lines|] == lines;
  }

  /**
   * setVar: the target is left alone when splitArgs reports an error, and
   * otherwise becomes the words joined by single spaces. A quoted value such
   * as `"Arch Linux"` arrives as one word and is kept whole.
   */
  function SetVar(current: string, words: Option<seq<string>>): (r: string)
    ensures words.None? ==> r == current
    ensures words == Some([]) ==> r == ""
    ensures words.Some? && |words.value| == 1 ==> r == words.value[0]
    ensures words.Some? && |words.value| > 0 ==>
              && Split(r, ' ') == SplitEach(words.value, ' ')
              && |r| == TotalLength(words.value) + |words.value| - 1
    ensures words.Some? && |words.value| > 0 && (forall i :: 0 <= i < |words.value| ==> ' ' !in words.value[i])
            ==> Split(r, ' ') == words.value
  {
    match words
    case None => current
    case Some(ws) =>
      if |ws| == 0 then ""
      else
        SplitJoinEach(ws, ' ');
        JoinLength(ws, ' ');
        WordsRecoverable(ws);
        Join(ws, ' ')
  }

  lemma WordsRecoverable(ws: seq<string>)
    ensures |ws| > 0 && (forall i :: 0 <= i < |ws| ==> ' ' !in ws[i]) ==> Split(Join(ws, ' '), ' ') == ws
  {
    if |ws| > 0 && (forall i :: 0 <= i < |ws| ==> ' ' !in ws[i]) {
      SplitJoin(ws, ' ');
    }
  }

  /** The distribution version source: VERSION_ID if present, otherwise VERSION. */
  function VersionValue(m: map<string, string>): Option<string> {
    if "VERSION_ID" in m then Some(m["VERSION_ID"])
    else if "VERSION" in m then Some(m["VERSION"])
    else None
  }

  /**
   * System::System: uname, then the os-release entries. The distribution
   * name is setVar of the last NAME value; the version is setVar of the last
   * VERSION_ID value, or of the last VERSION value when no line assigns
   * VERSION_ID.
   */
  function Load(uts: Option<Uts>, lines: seq<string>, splitArgs: ArgSplitter): (s: System)
    ensures s.uts == uts
    ensures (forall i :: 0 <= i < |lines| ==> !Assigns(lines[i], "NAME")) ==> s.distroName == ""
    ensures (forall i :: 0 <= i < |lines| ==> !Assigns(lines[i], "VERSION_ID") && !Assigns(lines[i], "VERSION"))
            ==> s.distroVersion == ""
    ensures forall v, i :: LastAssignment(lines, "NAME", v, i) ==> s.distroName == SetVar("", splitArgs(v))
    ensures forall v, i :: LastAssignment(lines, "VERSION_ID", v, i) ==> s.distroVersion == SetVar("", splitArgs(v))
    ensures (forall i :: 0 <= i < |lines| ==> !Assigns(lines[i], "VERSION_ID")) ==>
              forall v, i :: LastAssignment(lines, "VERSION", v, i) ==> s.distroVersion == SetVar("", splitArgs(v))
  {
    ParseKeys(lines, "NAME");
    ParseKeys(lines, "VERSION_ID");
    ParseKeys(lines, "VERSION");
    LastAssignmentParsed(lines, "NAME");
    LastAssignmentParsed(lines, "VERSION_ID");
    LastAssignmentParsed(lines, "VERSION");
    var m := Parse(lines);
    var name := if "NAME" in m then SetVar("", splitArgs(m["NAME"])) else "";
    var version := match VersionValue(m) case None => "" case Some(v) => SetVar("", splitArgs(v));
    System(uts, name, version)
  }

  /** Once VERSION_ID is parsed, a further VERSION assignment leaves the version source alone. */
  lemma VersionLineShadowedWith(read: EntryReader, lines: seq<string>, line: string, v: string)
    requires "VERSION_ID" in ParseWith(read, lines) && read(line) == Some(("VERSION", v))
    ensures VersionValue(ParseWith(read, lines + [line])) == VersionValue(ParseWith(read, lines))
  {
  }

  /** A line assigning `key` puts `key` in the parsed map, whatever surrounds it. */
  lemma AssignedKeyParsedWith(read: EntryReader, before: seq<string>, line: string, after: seq<string>, key: string)
    requires AssignsWith(read, line, key)
    ensures key in ParseWith(read, before + [line] + after)
  {
    var lines := before + [line] + after;
    assert lines[|before|] == line;
    ParseWithKeys(read, lines, key);
  }

  /** A `VERSION_ID=` line anywhere in the file puts VERSION_ID in the parsed map. */
  lemma VersionIdParsed(before: seq<string>, idRaw: string, after: seq<string>)
    requires '=' !in idRaw
    ensures "VERSION_ID" in Parse(before + ["VERSION_ID" + "=" + idRaw] + after)
  {
    EntryOfAssignment("VERSION_ID", idRaw);
    AssignedKeyParsedWith(Entry, before, "VERSION_ID" + "=" + idRaw, after, "VERSION_ID");
  }

  /** With VERSION_ID assigned, appending a `VERSION=` line keeps the version source. */
  lemma VersionSourceKept(before: seq<string>, idRaw: string, after: seq<string>, versionRaw: string)
    requires '=' !in idRaw && '=' !in versionRaw
    ensures var lines := before + ["VERSION_ID" + "=" + idRaw] + after;
            VersionValue(Parse(lines + ["VERSION" + "=" + versionRaw])) == VersionValue(Parse(lines))
  {
    var lines := before + ["VERSION_ID" + "=" + idRaw] + after;
    VersionIdParsed(before, idRaw, after);
    EntryOfAssignment("VERSION", versionRaw);
    VersionLineShadowedWith(Entry, lines, "VERSION" + "=" + versionRaw, Trim(versionRaw));
  }

  /** The distribution version depends on the file only through its version source. */
  lemma VersionFromSource(uts: Option<Uts>, a: seq<string>, b: seq<string>, splitArgs: ArgSplitter)
    requires VersionValue(Parse(a)) == VersionValue(Parse(b))
    ensures Load(uts, a, splitArgs).distroVersion == Load(uts, b, splitArgs).distroVersion
  {
  }

  /** A line assigning `key`, with no line after it assigning `key`, is the last assignment. */
  lemma LastAssignmentAtWith(read: EntryReader, before: seq<string>, line: string, after: seq<string>,
                             key: string, v: string)
    requires read(line) == Some((key, v))
    requires forall j :: 0 <= j < |after| ==> !AssignsWith(read, after[j], key)
    ensures LastAssignmentWith(read, before + [line] + after, key, v, |before|)
  {
    var lines := before + [line] + after;
    forall j | |before| < j < |lines|
      ensures !AssignsWith(read, lines[j], key)
    {
      assert lines[j] == after[j - |before| - 1];
    }
  }

  /** A `VERSION_ID=` line with no VERSION_ID line after it is the last assignment of VERSION_ID. */
  lemma VersionIdLineLast(before: seq<string>, idRaw: string, after: seq<string>)
    requires '=' !in idRaw
    requires forall j :: 0 <= j < |after| ==> !Assigns(after[j], "VERSION_ID")
    ensures LastAssignment(before + ["VERSION_ID" + "=" + idRaw] + after, "VERSION_ID", Trim(idRaw), |before|)
  {
    EntryOfAssignment("VERSION_ID", idRaw);
    LastAssignmentAtWith(Entry, before, "VERSION_ID" + "=" + idRaw, after, "VERSION_ID", Trim(idRaw));
  }

  /**
   * The version is read from the last VERSION_ID line, wherever VERSION lines
   * stand before or after it.
   */
  lemma VersionIdChosen(uts: Option<Uts>, before: seq<string>, idRaw: string, after: seq<string>,
                        splitArgs: ArgSplitter)
    requires '=' !in idRaw
    requires forall j :: 0 <= j < |after| ==> !Assigns(after[j], "VERSION_ID")
    ensures Load(uts, before + ["VERSION_ID" + "=" + idRaw] + after, splitArgs).distroVersion
            == SetVar("", splitArgs(Trim(idRaw)))
  {
    VersionIdLineLast(before, idRaw, after);
  }

  /** VERSION_ID wins over VERSION: once VERSION_ID is assigned, further VERSION lines change nothing. */
  lemma VersionIdPreferred(uts: Option<Uts>, before: seq<string>, idRaw: string, after: seq<string>,
                            versionRaw: string, splitArgs: ArgSplitter)
    requires '=' !in idRaw && '=' !in versionRaw
    ensures var lines := before + ["VERSION_ID" + "=" + idRaw] + after;
            Load(uts, lines + ["VERSION" + "=" + versionRaw], splitArgs).distroVersion
              == Load(uts, lines, splitArgs).distroVersion
  {
    var lines := before + ["VERSION_ID" + "=" + idRaw] + after;
    VersionSourceKept(before, idRaw, after, versionRaw);
    VersionFromSource(uts, lines + ["VERSION" + "=" + versionRaw], lines, splitArgs);
  }

  /** osName: the uname system name, or empty when uname failed. */
  function OsName(s: System): (r: string)
    ensures s.uts.None? ==> r == ""
  {
    if s.uts.Some? then s.uts.value.sysname else ""
  }

  /** osVersion: the uname release, or empty when uname failed. */
  function OsVersion(s: System): (r: string)
    ensures s.uts.None? ==> r == ""
  {
    if s.uts.Some? then s.uts.value.release else ""
  }

  predicate IsLinux(s: System) {
    ContainsIgnoringCase(OsName(s), "linux")
  }

  /** distroName: the parsed NAME on a system whose name mentions Linux, empty otherwise. */
  function DistroName(s: System): (r: string)
    ensures IsLinux(s) ==> r == s.distroName
    ensures !IsLinux(s) ==> r == ""
  {
    if IsLinux(s) then s.distroName else ""
  }

  /** distroVersion: the parsed version on a system whose name mentions Linux, empty otherwise. */
  function DistroVersion(s: System): (r: string)
    ensures IsLinux(s) ==> r == s.distroVersion
    ensures !IsLinux(s) ==> r == ""
  {
    if IsLinux(s) then s.distroVersion else ""
  }

  /** Any capitalisation of "Linux" inside the uname system name exposes the parsed distribution. */
  lemma LinuxNameShowsDistro(s: System, before: string, after: string)
    requires s.uts.Some? && s.uts.value.sysname == before + "Linux" + after
    ensures DistroName(s) == s.distroName && DistroVersion(s) == s.distroVersion
  {
    var name := Lower(OsName(s));
    var needle := Lower("linux");
    assert needle == "linux";
    assert name[|before|..|before| + 5] == "linux";
    assert OccursAt(name, needle, |before|);
  }

  /** Without uname there is no OS name, so the distribution fields are empty whatever the file said. */
  lemma NoUnameNoDistro(lines: seq<string>, splitArgs: ArgSplitter)
    ensures DistroName(Load(None, lines, splitArgs)) == ""
    ensures DistroVersion(Load(None, lines, splitArgs)) == ""
  {
  }

  const JsonKeys: set<string> := {"osName", "osVersion", "distroName", "distroVersion", "platformName"}

  /** System::toJson: exactly five keys, each holding its accessor's value. */
  function ToJson(s: System, platformName: string): (j: Json)
    ensures j.JObject? && j.Keys() == JsonKeys
    ensures j.fields["distroName"] == JString(DistroName(s))
    ensures j.fields["distroVersion"] == JString(DistroVersion(s))
  {
    JObject(map[
      "osName" := JString(OsName(s)),
      "osVersion" := JString(OsVersion(s)),
      "distroName" := JString(DistroName(s)),
      "distroVersion" := JString(DistroVersion(s)),
      "platformName" := JString(platformName)])
  }
}

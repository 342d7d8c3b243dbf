/**
 * Command dispatch of the kanalytics-console tool (tools/main.cpp): which
 * action runs and which exit code is returned, given the parsed options.
 */
module Cli {

  /** What QCommandLineParser reports: the three flags and the positional arguments. */
  datatype Options = Options(uuid: bool, commands: bool, json: bool, positional: seq<string>)

  datatype Section = SystemInfo | HardwareInfo | KdeInfo | AllInfo

  datatype Action =
    | ShowUuid
    | ShowCommands
    | Dump(section: Section, json: bool)
    | RejectDumpArgument   // warning, then the command list
    | Export               // runs the export branch; its result is not consulted
    | RejectCommand        // warning, then the command list

  datatype Outcome = Outcome(action: Action, exitCode: int)

  /** The first positional argument, or the empty string. */
  function Command(o: Options): string {
    if |o.positional| > 0 then o.positional[0] else ""
  }

  /** The second positional argument, or the empty string (QStringList::value(1)). */
  function Subcommand(o: Options): string {
    if |o.positional| > 1 then o.positional[1] else ""
  }

  function SectionOf(name: string): Section
    requires name in {"system", "hardware", "kde", "all"}
  {
    if name == "system" then SystemInfo
    else if name == "hardware" then HardwareInfo
    else if name == "kde" then KdeInfo
    else AllInfo
  }

  /** The dispatch in main after the parser has processed the command line. */
  function Dispatch(o: Options): (r: Outcome)
    ensures r.exitCode == 0 || r.exitCode == 1
    ensures o.uuid ==> r == Outcome(ShowUuid, 1)
    ensures !o.uuid && (Command(o) == "" || o.commands) ==> r == Outcome(ShowCommands, 1)
    ensures r.exitCode == 0 <==>
      && !o.uuid && !o.commands
      && (|| Command(o) == "export"
          || (Command(o) == "dump" && Subcommand(o) in {"system", "hardware", "kde", "all"}))
  {
    if o.uuid then Outcome(ShowUuid, 1)
    else
      var command := Command(o);
      if command == "" || o.commands then Outcome(ShowCommands, 1)
      else if command == "dump" then
        var sub := Subcommand(o);
        if sub in {"system", "hardware", "kde", "all"} then Outcome(Dump(SectionOf(sub), o.json), 0)
        else Outcome(RejectDumpArgument, 1)
      else if command == "export" then Outcome(Export, 0)
      else Outcome(RejectCommand, 1)
  }

  /**
   * --json only chooses how dump renders: flipping it keeps the exit code,
   * and keeps the action apart from a dump's rendering flag.
   */
  lemma JsonOnlySelectsRendering(o: Options, json: bool)
    ensures Dispatch(o.(json := json)).exitCode == Dispatch(o).exitCode
    ensures Dispatch(o).action.Dump? <==> Dispatch(o.(json := json)).action.Dump?
    ensures Dispatch(o).action.Dump? ==>
      Dispatch(o.(json := json)).action == Dump(Dispatch(o).action.section, json)
    ensures !Dispatch(o).action.Dump? ==> Dispatch(o.(json := json)).action == Dispatch(o).action
  {
  }

  /** A dump names its section after the subcommand, and only the four known ones succeed. */
  lemma DumpSections(o: Options)
    requires !o.uuid && !o.commands && Command(o) == "dump"
    ensures Subcommand(o) == "system" ==> Dispatch(o).action == Dump(SystemInfo, o.json)
    ensures Subcommand(o) == "hardware" ==> Dispatch(o).action == Dump(HardwareInfo, o.json)
    ensures Subcommand(o) == "kde" ==> Dispatch(o).action == Dump(KdeInfo, o.json)
    ensures Subcommand(o) == "all" ==> Dispatch(o).action == Dump(AllInfo, o.json)
    ensures Subcommand(o) !in {"system", "hardware", "kde", "all"} ==> Dispatch(o) == Outcome(RejectDumpArgument, 1)
  {
  }
}

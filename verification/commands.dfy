/** Turning the stored lists into an invocation of the packaging tool:
    the argument vector of `runRepomix` and the display string of
    `exportRepomixCommand`. Nothing is launched; the run form returns the
    request a task runner would execute. */
module Commands {
  import opened Wrappers
  import opened Order
  import opened ListStore
  import Text

  /** The executable used when the `repomixHelper.repomixCommand` setting is absent or empty. */
  const DefaultExecutable: string := "repomix"

  const IncludeFlag: string := "--include"
  const IgnoreFlag: string := "--ignore"

  /** List members are joined with commas, as the tool expects. */
  const ListSeparator: char := ','

  /** Parts of the display string are joined with single spaces. */
  const Space: char := ' '

  /** `cfg.get("repomixCommand") || "repomix"`: the setting unless it is absent or empty. */
  function Executable(setting: Option<string>): (e: string)
    ensures e != ""
    ensures setting.Some? && setting.value != "" ==> e == setting.value
    ensures setting.None? || setting.value == "" ==> e == DefaultExecutable
  {
    if setting.Some? && setting.value != "" then setting.value else DefaultExecutable
  }

  /** The process a task runner is asked to start. */
  datatype RunRequest = RunRequest(executable: string, args: seq<string>, workingDirectory: string)

  /** What `runRepomix` does: refuse on an empty include list, refuse without a
      workspace folder, or launch. */
  datatype RunOutcome =
    | IncludeEmpty
    | NoWorkspaceFolder
    | Launch(request: RunRequest)

  /** `--include <joined>`, then `--ignore <joined>` only when there is something to ignore. */
  function RunArgs(l: Lists): seq<string>
  {
    [IncludeFlag, Text.Join(l.includes, ListSeparator)]
      + (if |l.ignores| > 0 then [IgnoreFlag, Text.Join(l.ignores, ListSeparator)] else [])
  }

  /** `runRepomix`: the include check comes first, before the setting or the
      workspace folders are consulted; the working directory is the first
      workspace folder. */
  function Run(store: Store, w: WorkspaceId, setting: Option<string>, folders: seq<string>): (o: RunOutcome)
    ensures o.IncludeEmpty? <==> Load(store, w).includes == []
    ensures o.NoWorkspaceFolder? <==> Load(store, w).includes != [] && folders == []
    ensures o.Launch? ==>
      && o.request.executable == Executable(setting)
      && o.request.workingDirectory == folders[0]
      && o.request.args == RunArgs(Load(store, w))
  {
    var lists := Load(store, w);
    if |lists.includes| == 0 then IncludeEmpty
    else
      var exe := Executable(setting);
      var args := RunArgs(lists);
      if |folders| == 0 then NoWorkspaceFolder
      else Launch(RunRequest(exe, args, folders[0]))
  }

  /** The argument vector has the include flag and its value, and the ignore
      flag and its value exactly when the ignore list is non-empty; an empty
      ignore list leaves no `--ignore` flag at all. */
  lemma RunArgsShape(l: Lists)
    ensures var args := RunArgs(l);
      && |args| == (if |l.ignores| > 0 then 4 else 2)
      && args[0] == IncludeFlag
      && args[1] == Text.Join(l.includes, ListSeparator)
      && (|l.ignores| > 0 ==> args[2] == IgnoreFlag && args[3] == Text.Join(l.ignores, ListSeparator))
      && ((exists i :: 0 <= i < |args| && i % 2 == 0 && args[i] == IgnoreFlag) <==> |l.ignores| > 0)
  {
    var args := RunArgs(l);
    if |l.ignores| > 0 {
      assert args[2] == IgnoreFlag;
    } else {
      assert forall i :: 0 <= i < |args| && i % 2 == 0 ==> i == 0;
    }
  }

  /** The comma-joined list is read back as the same list by splitting at
      commas, provided no member itself holds a comma. */
  lemma ListArgRoundTrip(members: seq<string>)
    requires |members| >= 1
    requires forall i :: 0 <= i < |members| ==> ListSeparator !in members[i]
    ensures Text.Split(Text.Join(members, ListSeparator), ListSeparator) == members
  {
    Text.SplitJoin(members, ListSeparator);
  }

  /** `--flag "value"`: one segment of the display string. */
  function Quoted(flag: string, value: string): string
  {
    flag + " \"" + value + "\""
  }

  /** What `exportRepomixCommand` produces: the command line, and whether the
      caller is warned that the include part is empty. */
  datatype ExportResult = ExportResult(command: string, warnIncludeEmpty: bool)

  /** The display string for lists `l`: the executable, then the quoted include
      segment only if the joined include list is non-empty, then the quoted
      ignore segment only if the joined ignore list is non-empty, each segment
      preceded by one space. The include segment is omitted on its own, so an
      empty include list with a non-empty ignore list still shows the ignore
      segment. */
  predicate RendersAs(l: Lists, setting: Option<string>, command: string)
  {
    var exe := Executable(setting);
    var inc := Text.Join(l.includes, ListSeparator);
    var ign := Text.Join(l.ignores, ListSeparator);
    command == exe
      + (if inc != "" then " " + Quoted(IncludeFlag, inc) else "")
      + (if ign != "" then " " + Quoted(IgnoreFlag, ign) else "")
  }

  /** `exportRepomixCommand` on lists `l`: the command line built from the
      segments joined by spaces. It never refuses; it warns exactly when the
      joined include list is empty. */
  function ExportCommand(l: Lists, setting: Option<string>): (e: ExportResult)
    ensures e.warnIncludeEmpty <==> Text.Join(l.includes, ListSeparator) == ""
    ensures Executable(setting) <= e.command
    ensures RendersAs(l, setting, e.command)
  {
    var inc := Text.Join(l.includes, ListSeparator);
    var ign := Text.Join(l.ignores, ListSeparator);
    var parts := [Executable(setting)]
      + (if inc != "" then [Quoted(IncludeFlag, inc)] else [])
      + (if ign != "" then [Quoted(IgnoreFlag, ign)] else []);
    ExportShape(Executable(setting), inc, ign);
    ExportResult(Text.Join(parts, Space), inc == "")
  }

  /** Joining the present segments with spaces is the executable followed by
      each present segment with a leading space. */
  lemma ExportShape(exe: string, inc: string, ign: string)
    ensures Text.Join([exe]
      + (if inc != "" then [Quoted(IncludeFlag, inc)] else [])
      + (if ign != "" then [Quoted(IgnoreFlag, ign)] else []), Space)
      == exe
      + (if inc != "" then " " + Quoted(IncludeFlag, inc) else "")
      + (if ign != "" then " " + Quoted(IgnoreFlag, ign) else "")
  {
    var a := Quoted(IncludeFlag, inc);
    var b := Quoted(IgnoreFlag, ign);
    var sa: seq<string> := if inc != "" then [a] else [];
    var sb: seq<string> := if ign != "" then [b] else [];
    var ta := if inc != "" then " " + a else "";
    var tb := if ign != "" then " " + b else "";
    JoinSegments(exe, sa, sb, ta, tb);
  }

  /** The space-join of the executable and at most two optional segments. */
  lemma JoinSegments(exe: string, sa: seq<string>, sb: seq<string>, ta: string, tb: string)
    requires |sa| <= 1 && |sb| <= 1
    requires ta == (if |sa| == 1 then " " + sa[0] else "")
    requires tb == (if |sb| == 1 then " " + sb[0] else "")
    ensures Text.Join([exe] + sa + sb, Space) == exe + ta + tb
  {
    if |sa| == 1 && |sb| == 1 {
      assert [exe] + sa + sb == [exe, sa[0], sb[0]];
      JoinTwo(sa[0], sb[0]);
      assert Text.Join([exe, sa[0], sb[0]], Space) == exe + [Space] + Text.Join([sa[0], sb[0]], Space);
    } else if |sa| == 1 {
      assert [exe] + sa + sb == [exe, sa[0]];
      JoinTwo(exe, sa[0]);
    } else if |sb| == 1 {
      assert [exe] + sa + sb == [exe, sb[0]];
      JoinTwo(exe, sb[0]);
    } else {
      assert [exe] + sa + sb == [exe];
    }
  }

  /** Two segments joined by a space. */
  lemma JoinTwo(x: string, y: string)
    ensures Text.Join([x, y], Space) == x + " " + y
  {
    assert [x, y][1..] == [y];
  }

  /** `exportRepomixCommand` on the stored lists of a workspace. */
  function Export(store: Store, w: WorkspaceId, setting: Option<string>): (e: ExportResult)
    ensures e.warnIncludeEmpty <==> Text.Join(Load(store, w).includes, ListSeparator) == ""
    ensures Load(store, w).includes == [] ==> e.warnIncludeEmpty
    ensures RendersAs(Load(store, w), setting, e.command)
  {
    ExportCommand(Load(store, w), setting)
  }

  /** Renders an argument vector of flag/value pairs as display segments. */
  function Display(args: seq<string>): seq<string>
  {
    if |args| < 2 then args else [Quoted(args[0], args[1])] + Display(args[2..])
  }

  /** The two forms agree whenever no stored member is the empty path (which
      adding never stores): export warns exactly when run refuses for an empty
      include list, and when run launches, the export string is its executable
      and arguments rendered as display segments. */
  lemma ExportAgreesWithRun(store: Store, w: WorkspaceId, setting: Option<string>, folders: seq<string>)
    requires "" !in Load(store, w).includes && "" !in Load(store, w).ignores
    ensures Export(store, w, setting).warnIncludeEmpty <==> Run(store, w, setting, folders).IncludeEmpty?
    ensures Run(store, w, setting, folders).Launch? ==>
      var req := Run(store, w, setting, folders).request;
      Export(store, w, setting).command == Text.Join([req.executable] + Display(req.args), Space)
  {
    var l := Load(store, w);
    Text.JoinEmpty(l.includes, ListSeparator);
    Text.JoinEmpty(l.ignores, ListSeparator);
    assert l.includes == [""] ==> "" in l.includes;
    assert l.ignores == [""] ==> "" in l.ignores;
    var args := RunArgs(l);
    if |l.includes| > 0 {
      var inc := Text.Join(l.includes, ListSeparator);
      var ign := Text.Join(l.ignores, ListSeparator);
      if |l.ignores| > 0 {
        assert args[2..] == [IgnoreFlag, ign];
        assert args[2..][2..] == [];
        assert Display(args[2..]) == [Quoted(IgnoreFlag, ign)];
        assert Display(args) == [Quoted(IncludeFlag, inc), Quoted(IgnoreFlag, ign)];
        assert Export(store, w, setting).command
            == Text.Join([Executable(setting)] + [Quoted(IncludeFlag, inc)] + [Quoted(IgnoreFlag, ign)], Space);
      } else {
        assert Display(args) == [Quoted(IncludeFlag, inc)];
        assert ign == "";
        assert [Executable(setting)] + [Quoted(IncludeFlag, inc)] + [] == [Executable(setting)] + [Quoted(IncludeFlag, inc)];
        assert Export(store, w, setting).command
            == Text.Join([Executable(setting)] + [Quoted(IncludeFlag, inc)], Space);
      }
    }
  }

  /** Run refuses on an empty include list whatever the ignore list, the
      setting and the workspace folders are. */
  lemma EmptyIncludeRefusedRegardless(store: Store, w: WorkspaceId, ignores: seq<string>,
                                      setting: Option<string>, folders: seq<string>)
    ensures Run(Save(store, w, Lists([], ignores)), w, setting, folders) == IncludeEmpty
  {
  }

  /** Saving include ["x.ts"] and ignore ["b.ts", "a.ts"] and running yields the
      arguments with the ignore list in sorted order. */
  lemma SortedArgsScenario(store: Store, w: WorkspaceId)
    ensures Run(Save(store, w, Lists(["x.ts"], ["b.ts", "a.ts"])), w, None, ["/ws"])
         == Launch(RunRequest("repomix", ["--include", "x.ts", "--ignore", "a.ts,b.ts"], "/ws"))
  {
    assert Less("a.ts", "b.ts");
    assert Elems(["b.ts", "a.ts"]) == Elems(["a.ts", "b.ts"]);
    UniqSortedOrderInsensitive(["b.ts", "a.ts"], ["a.ts", "b.ts"]);
    UniqSortedKeepsCanonical(["a.ts", "b.ts"]);
    UniqSortedKeepsCanonical(["x.ts"]);
    assert Text.Join(["a.ts", "b.ts"], ListSeparator) == "a.ts,b.ts";
  }
}

/** Adding picked files to one of the lists (`addPaths`): which files are
    picked, how each maps to a workspace-relative path, and how the paths are
    merged into the stored list while counting what was added and skipped. */
module ListEditor {
  import opened Wrappers
  import opened Order
  import opened ListStore
  import Paths

  /** A file reference, by its file-system path. */
  type Uri = string

  /** Where the files to add come from, in order of precedence. */
  datatype Selection =
    | MultiSelect(uris: seq<Uri>)  // a non-empty explorer multi-selection
    | SingleSelect(uri: Uri)       // the one item the command was invoked on
    | ActiveEditor(uri: Uri)       // the document of the active editor
    | NothingSelected              // "No file selected."
  {
    /** The files the selection stands for. */
    function Picked(): seq<Uri>
    {
      match this
      case MultiSelect(us) => us
      case SingleSelect(u) => [u]
      case ActiveEditor(u) => [u]
      case NothingSelected => []
    }
  }

  /** A non-empty multi-selection wins, then the single item, then the active
      editor; with none of them there is nothing to add. */
  function ResolveSelection(uri: Option<Uri>, uris: Option<seq<Uri>>, active: Option<Uri>): (s: Selection)
    ensures s.NothingSelected? <==> (uris.None? || uris.value == []) && uri.None? && active.None?
    ensures s.NothingSelected? <==> s.Picked() == []
    ensures uris.Some? && uris.value != [] ==> s.Picked() == uris.value
    ensures (uris.None? || uris.value == []) && uri.Some? ==> s.Picked() == [uri.value]
    ensures (uris.None? || uris.value == []) && uri.None? && active.Some? ==> s.Picked() == [active.value]
  {
    if uris.Some? && |uris.value| > 0 then MultiSelect(uris.value)
    else if uri.Some? then SingleSelect(uri.value)
    else if active.Some? then ActiveEditor(active.value)
    else NothingSelected
  }

  /** JavaScript's `!rel` on `string | null`: no mapping, or the empty path. */
  predicate Falsy(rel: Option<string>)
  {
    rel.None? || rel.value == ""
  }

  /** The distinct paths of a batch that would be added. */
  function ValidPaths(rels: seq<Option<string>>): (ps: set<string>)
    ensures "" !in ps
  {
    if |rels| == 0 then {}
    else ValidPaths(rels[..|rels| - 1]) + (if Falsy(rels[|rels| - 1]) then {} else {rels[|rels| - 1].value})
  }

  /** How many entries of a batch are skipped. */
  function FalsyCount(rels: seq<Option<string>>): nat
  {
    if |rels| == 0 then 0
    else FalsyCount(rels[..|rels| - 1]) + (if Falsy(rels[|rels| - 1]) then 1 else 0)
  }

  /** A path is valid exactly when some entry of the batch maps to it and it is not empty. */
  lemma {:induction false} ValidPathsMembers(rels: seq<Option<string>>, x: string)
    ensures x in ValidPaths(rels) <==> x != "" && Some(x) in rels
  {
    if |rels| > 0 {
      var n := |rels| - 1;
      ValidPathsMembers(rels[..n], x);
      assert rels == rels[..n] + [rels[n]];
    }
  }

  /** The list and the two counters after some prefix of the batch. */
  datatype MergeState = MergeState(list: seq<string>, added: nat, skipped: nat)

  /** One step of the loop: skip a falsy path, append a path that is not yet
      in the list, leave the list alone for one that is. */
  function MergeStep(m: MergeState, rel: Option<string>): MergeState
  {
    if Falsy(rel) then m.(skipped := m.skipped + 1)
    else if rel.value in m.list then m
    else MergeState(m.list + [rel.value], m.added + 1, m.skipped)
  }

  /** `m` is what merging `rels` into `list` must produce: the list only grows,
      by exactly the new non-empty paths, each once; `added` counts those and
      `skipped` counts the falsy entries. */
  ghost predicate Merged(list: seq<string>, rels: seq<Option<string>>, m: MergeState)
  {
    && list <= m.list
    && Elems(m.list) == Elems(list) + ValidPaths(rels)
    && m.added == |ValidPaths(rels) - Elems(list)|
    && |m.list| == |list| + m.added
    && m.skipped == FalsyCount(rels)
    && m.added + m.skipped <= |rels|
  }

  /** The reference fold of the loop over a batch: `MergeStep` applied to
      each entry in turn, from `list` and zero counters. */
  function Merge(list: seq<string>, rels: seq<Option<string>>): (m: MergeState)
    ensures list <= m.list
    ensures |m.list| == |list| + m.added
    ensures m.added + m.skipped <= |rels|
  {
    if |rels| == 0 then MergeState(list, 0, 0)
    else MergeStep(Merge(list, rels[..|rels| - 1]), rels[|rels| - 1])
  }

  /** Merging a batch into `list`: the list only grows, by appending exactly the
      new non-empty paths, each once; `added` counts the distinct new paths and
      `skipped` the falsy entries. */
  lemma {:induction false} MergeSound(list: seq<string>, rels: seq<Option<string>>)
    ensures Merged(list, rels, Merge(list, rels))
  {
    if |rels| > 0 {
      MergeSound(list, rels[..|rels| - 1]);
      MergeLastSound(list, rels, Merge(list, rels[..|rels| - 1]));
    }
  }

  /** Merging one more entry is one more loop step. */
  lemma MergeSnoc(list: seq<string>, rels: seq<Option<string>>, rel: Option<string>)
    ensures Merge(list, rels + [rel]) == MergeStep(Merge(list, rels), rel)
  {
    assert (rels + [rel])[..|rels|] == rels;
  }

  /** Merging a prefix one entry longer is one more loop step. */
  lemma MergePrefixStep(list: seq<string>, rels: seq<Option<string>>, i: nat)
    requires i < |rels|
    ensures Merge(list, rels[..i + 1]) == MergeStep(Merge(list, rels[..i]), rels[i])
  {
    assert rels[..i + 1] == rels[..i] + [rels[i]];
    MergeSnoc(list, rels[..i], rels[i]);
  }

  /** The last loop step extends `Merged` from all but the last entry to the whole batch. */
  lemma MergeLastSound(list: seq<string>, rels: seq<Option<string>>, prev: MergeState)
    requires |rels| > 0
    requires Merged(list, rels[..|rels| - 1], prev)
    ensures Merged(list, rels, MergeStep(prev, rels[|rels| - 1]))
  {
    var n := |rels| - 1;
    assert rels == rels[..n] + [rels[n]];
    MergeStepSound(list, rels[..n], rels[n], prev);
  }

  /** One loop step extends `Merged` from a prefix of the batch to the prefix one longer. */
  lemma MergeStepSound(list: seq<string>, rels: seq<Option<string>>, rel: Option<string>, prev: MergeState)
    requires Merged(list, rels, prev)
    ensures Merged(list, rels + [rel], MergeStep(prev, rel))
  {
    var rs := rels + [rel];
    assert rs[..|rs| - 1] == rels;
    if Falsy(rel) {
      assert ValidPaths(rs) == ValidPaths(rels);
      assert FalsyCount(rs) == FalsyCount(rels) + 1;
    } else if rel.value in prev.list {
      assert ValidPaths(rs) == ValidPaths(rels) + {rel.value};
      assert rel.value in Elems(list) + ValidPaths(rels);
      assert ValidPaths(rs) - Elems(list) == ValidPaths(rels) - Elems(list);
      assert FalsyCount(rs) == FalsyCount(rels);
    } else {
      MergeAppendSound(list, rels, rel.value, prev);
    }
  }

  /** The step that appends a new path `p` keeps `Merged`. */
  lemma MergeAppendSound(list: seq<string>, rels: seq<Option<string>>, p: string, prev: MergeState)
    requires Merged(list, rels, prev)
    requires p != "" && p !in prev.list
    ensures Merged(list, rels + [Some(p)], MergeState(prev.list + [p], prev.added + 1, prev.skipped))
  {
    var rs := rels + [Some(p)];
    assert rs[..|rs| - 1] == rels;
    assert ValidPaths(rs) == ValidPaths(rels) + {p};
    assert FalsyCount(rs) == FalsyCount(rels);
    assert p !in Elems(prev.list);
    ElemsSnoc(prev.list, p);
    var old_new := ValidPaths(rels) - Elems(list);
    assert p !in old_new;
    assert ValidPaths(rs) - Elems(list) == old_new + {p};
  }

  lemma ElemsSnoc(s: seq<string>, x: string)
    ensures Elems(s + [x]) == Elems(s) + {x}
  {
  }

  /** The loop of `addPaths` over the relative paths of the picked files:
      returns the updated lists and the `added` and `skipped` counters. */
  method AddMany(lists: Lists, kind: Kind, rels: seq<Option<string>>) returns (result: Lists, added: nat, skipped: nat)
    ensures result.Get(Other(kind)) == lists.Get(Other(kind))
    ensures lists.Get(kind) <= result.Get(kind)
    ensures |result.Get(kind)| == |lists.Get(kind)| + added
    ensures Elems(result.Get(kind)) == Elems(lists.Get(kind)) + ValidPaths(rels)
    ensures added == |ValidPaths(rels) - Elems(lists.Get(kind))|
    ensures skipped == FalsyCount(rels)
  {
    var list := lists.Get(kind);
    added := 0;
    skipped := 0;
    var i := 0;
    while i < |rels|
      invariant 0 <= i <= |rels|
      invariant MergeState(list, added, skipped) == Merge(lists.Get(kind), rels[..i])
    {
      MergePrefixStep(lists.Get(kind), rels, i);
      var rel := rels[i];
      if Falsy(rel) {
        skipped := skipped + 1;
      } else if rel.value !in list {
        list := list + [rel.value];
        added := added + 1;
      }
      i := i + 1;
    }
    assert rels[..i] == rels;
    MergeSound(lists.Get(kind), rels);
    result := lists.With(kind, list);
  }

  /** Maps every picked file to its workspace-relative path, if any. */
  function RelativePaths(picked: seq<Uri>, folders: seq<string>, sep: char): (rels: seq<Option<string>>)
    ensures |rels| == |picked|
    ensures forall i :: 0 <= i < |picked| ==>
      (rels[i].None? <==> forall j :: 0 <= j < |folders| ==> !Paths.Contains(folders[j], picked[i], sep))
  {
    seq(|picked|, i requires 0 <= i < |picked| => Paths.ToWorkspaceRelative(folders, picked[i], sep))
  }

  /** What `addPaths` leaves behind: a no-op warning, or the new store and the counters. */
  datatype AddOutcome =
    | NoFileSelected
    | Added(store: Store, added: nat, skipped: nat)

  /** `addPaths`: resolve the selection, load the lists, merge the relative
      paths of the picked files into `lists[kind]`, save. Nothing is stored
      when nothing is selected; otherwise only this workspace's entry changes,
      and it is canonical. */
  function AddPaths(store: Store, w: WorkspaceId, kind: Kind,
                    uri: Option<Uri>, uris: Option<seq<Uri>>, active: Option<Uri>,
                    folders: seq<string>, sep: char): (o: AddOutcome)
    ensures o.NoFileSelected? <==> ResolveSelection(uri, uris, active).NothingSelected?
    ensures o.Added? ==> o.store.Keys == store.Keys + {w} && Canonical(o.store[w])
    ensures o.Added? && WellFormed(store) ==> WellFormed(o.store)
    ensures o.Added? ==> forall v :: v in store && v != w ==> v in o.store && o.store[v] == store[v]
  {
    var sel := ResolveSelection(uri, uris, active);
    if sel.NothingSelected? then NoFileSelected
    else
      var lists := Load(store, w);
      var m := Merge(lists.Get(kind), RelativePaths(sel.Picked(), folders, sep));
      Added(Save(store, w, lists.With(kind, m.list)), m.added, m.skipped)
  }

  /** What an add does to the workspace's lists: the chosen list's members grow
      by exactly the new non-empty paths of the picked files, the other list's
      members stay as they were, `added` counts the distinct new paths and
      `skipped` the picked files with no usable relative path. */
  lemma AddPathsEffect(store: Store, w: WorkspaceId, kind: Kind,
                       uri: Option<Uri>, uris: Option<seq<Uri>>, active: Option<Uri>,
                       folders: seq<string>, sep: char)
    requires !ResolveSelection(uri, uris, active).NothingSelected?
    ensures var o := AddPaths(store, w, kind, uri, uris, active, folders, sep);
      var picked := ResolveSelection(uri, uris, active).Picked();
      var rels := RelativePaths(picked, folders, sep);
      var before := Load(store, w);
      var after := Load(o.store, w);
      && Elems(after.Get(kind)) == Elems(before.Get(kind)) + ValidPaths(rels)
      && Elems(after.Get(Other(kind))) == Elems(before.Get(Other(kind)))
      && o.added == |ValidPaths(rels) - Elems(before.Get(kind))|
      && o.skipped == FalsyCount(rels)
      && o.added + o.skipped <= |picked|
  {
    var picked := ResolveSelection(uri, uris, active).Picked();
    var rels := RelativePaths(picked, folders, sep);
    MergeSound(Load(store, w).Get(kind), rels);
  }

  /** Repeating the same batch adds nothing: `added` is 0, the same entries are
      skipped, and the stored state is unchanged. */
  lemma RepeatAddIsNoop(store: Store, w: WorkspaceId, kind: Kind,
                        uri: Option<Uri>, uris: Option<seq<Uri>>, active: Option<Uri>,
                        folders: seq<string>, sep: char)
    requires !ResolveSelection(uri, uris, active).NothingSelected?
    ensures var o1 := AddPaths(store, w, kind, uri, uris, active, folders, sep);
            var o2 := AddPaths(o1.store, w, kind, uri, uris, active, folders, sep);
            && o2.Added?
            && o2.added == 0
            && o2.skipped == o1.skipped
            && o2.store == o1.store
  {
    var o1 := AddPaths(store, w, kind, uri, uris, active, folders, sep);
    var rels := RelativePaths(ResolveSelection(uri, uris, active).Picked(), folders, sep);
    AddPathsEffect(store, w, kind, uri, uris, active, folders, sep);
    var lists := Load(o1.store, w);
    MergeAlreadyPresent(lists.Get(kind), rels);
    var m := Merge(lists.Get(kind), rels);
    assert lists.With(kind, m.list) == lists;
    SaveStoredIsNoop(o1.store, w);
    assert AddPaths(o1.store, w, kind, uri, uris, active, folders, sep)
        == Added(Save(o1.store, w, lists.With(kind, m.list)), m.added, m.skipped);
  }

  /** A batch whose paths are all present already leaves the list as it is
      and adds nothing. */
  lemma MergeAlreadyPresent(list: seq<string>, rels: seq<Option<string>>)
    requires ValidPaths(rels) <= Elems(list)
    ensures Merge(list, rels) == MergeState(list, 0, FalsyCount(rels))
  {
    MergeSound(list, rels);
    assert ValidPaths(rels) - Elems(list) == {};
  }

  /** No stored list holds the empty path. */
  ghost predicate NoEmptyEntries(store: Store)
  {
    forall v :: v in store ==> "" !in store[v].includes && "" !in store[v].ignores
  }

  /** Adding never stores the empty path, so the workspace root itself is never listed. */
  lemma AddPathsKeepsNoEmptyEntries(store: Store, w: WorkspaceId, kind: Kind,
                                    uri: Option<Uri>, uris: Option<seq<Uri>>, active: Option<Uri>,
                                    folders: seq<string>, sep: char)
    requires NoEmptyEntries(store)
    requires !ResolveSelection(uri, uris, active).NothingSelected?
    ensures NoEmptyEntries(AddPaths(store, w, kind, uri, uris, active, folders, sep).store)
  {
    var o := AddPaths(store, w, kind, uri, uris, active, folders, sep);
    var before := Load(store, w);
    var after := Load(o.store, w);
    AddPathsEffect(store, w, kind, uri, uris, active, folders, sep);
    assert "" !in Elems(before.includes) && "" !in Elems(before.ignores);
    assert "" !in Elems(after.includes) && "" !in Elems(after.ignores);
  }

  /** Picking the workspace root adds nothing and counts one skip: its relative
      path is the empty string, which the merge treats as falsy. */
  lemma WorkspaceRootIsSkipped(store: Store, w: WorkspaceId, kind: Kind, root: string, sep: char)
    ensures var o := AddPaths(store, w, kind, Some(root), None, None, [root], sep);
            o.Added? && o.added == 0 && o.skipped == 1
  {
    var rels := RelativePaths([root], [root], sep);
    Paths.RootMapsToEmpty([root], sep);
    assert rels == [Some("")];
    assert [Some("")][..0] == [];
    var l := Load(store, w).Get(kind);
    assert Merge(l, rels) == MergeState(l, 0, 1);
  }

  /** With a multi-selection and a single item both given, exactly the
      multi-selection is processed. */
  lemma MultiSelectionWinsScenario()
    ensures ResolveSelection(Some("c.ts"), Some(["a.ts", "b.ts"]), None).Picked() == ["a.ts", "b.ts"]
  {
  }

  /** A batch of two mappable files and one outside every open folder, added
      to empty lists, reports two added and one skipped. */
  lemma UnmappableScenario(w: WorkspaceId)
    ensures var o := AddPaths(map[], w, Include, None, Some(["/ws/a.ts", "/elsewhere/x.ts", "/ws/b.ts"]), None, ["/ws"], '/');
            && o.Added?
            && o.added == 2
            && o.skipped == 1
            && Load(o.store, w).includes == ["a.ts", "b.ts"]
  {
    ScenarioAddPaths(w);
    ScenarioStored(w);
  }

  lemma ScenarioStored(w: WorkspaceId)
    ensures Load(Save(map[], w, Empty.With(Include, ["a.ts", "b.ts"])), w).includes == ["a.ts", "b.ts"]
  {
    assert Less("a.ts", "b.ts");
    UniqSortedKeepsCanonical(["a.ts", "b.ts"]);
  }

  lemma ScenarioAddPaths(w: WorkspaceId)
    ensures AddPaths(map[], w, Include, None, Some(["/ws/a.ts", "/elsewhere/x.ts", "/ws/b.ts"]), None, ["/ws"], '/')
         == Added(Save(map[], w, Empty.With(Include, ["a.ts", "b.ts"])), 2, 1)
  {
    var picked := ["/ws/a.ts", "/elsewhere/x.ts", "/ws/b.ts"];
    assert ResolveSelection(None, Some(picked), None) == MultiSelect(picked);
    assert Load(map[], w) == Empty;
    ScenarioRelativePaths();
    ScenarioMerge();
  }

  lemma ScenarioRelativePaths()
    ensures RelativePaths(["/ws/a.ts", "/elsewhere/x.ts", "/ws/b.ts"], ["/ws"], '/')
         == [Some("a.ts"), None, Some("b.ts")]
  {
    Paths.ChildOfOnlyFolder("/ws", "a.ts");
    Paths.ChildOfOnlyFolder("/ws", "b.ts");
    assert "/ws" + ['/'] + "a.ts" == "/ws/a.ts";
    assert "/ws" + ['/'] + "b.ts" == "/ws/b.ts";
    ScenarioOutside();
  }

  lemma ScenarioOutside()
    ensures Paths.ToWorkspaceRelative(["/ws"], "/elsewhere/x.ts", '/') == None
  {
    assert "/elsewhere/x.ts"[..3] != "/ws" by {
      assert "/elsewhere/x.ts"[1] == 'e';
    }
  }

  lemma ScenarioMerge()
    ensures Merge([], [Some("a.ts"), None, Some("b.ts")]) == MergeState(["a.ts", "b.ts"], 2, 1)
  {
    var rels := [Some("a.ts"), None, Some("b.ts")];
    assert rels[..2] == [Some("a.ts"), None];
    assert rels[..2][..1] == [Some("a.ts")];
    assert [Some("a.ts")][..0] == [];
    assert Merge([], [Some("a.ts")]) == MergeState(["a.ts"], 1, 0);
    assert Merge([], rels[..2]) == MergeState(["a.ts"], 1, 1);
    assert "b.ts" != "a.ts";
  }
}

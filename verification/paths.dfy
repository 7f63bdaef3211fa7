/** Workspace-relative path names (`toWorkspaceRelative`).
    A file reference is modelled by its file-system path. The host's
    `getWorkspaceFolder` and Node's `path.relative` are modelled by plain
    prefix matching on the host separator. */
module Paths {
  import opened Wrappers
  import Text

  /** The separator used in stored entries, whatever the host convention. */
  const Slash: char := '/'

  /** `p` lies at or under the folder `root`. */
  predicate Contains(root: string, p: string, sep: char)
  {
    || p == root
    || (|p| > |root| && p[..|root|] == root && p[|root|] == sep)
  }

  /** `path.relative(root, p)` for a path at or under `root`: the remainder
      after the root and its separator; the root itself maps to "". */
  function Relative(root: string, p: string, sep: char): (r: string)
    requires Contains(root, p, sep)
    ensures p == root ==> r == ""
    ensures p != root ==> p == root + [sep] + r
  {
    if p == root then "" else p[|root| + 1..]
  }

  /** `getWorkspaceFolder`: the first open folder that contains `p`, if any. */
  function ContainingFolder(folders: seq<string>, p: string, sep: char): (r: Option<string>)
    ensures r.None? <==> forall i :: 0 <= i < |folders| ==> !Contains(folders[i], p, sep)
    ensures r.Some? ==> r.value in folders && Contains(r.value, p, sep)
  {
    if |folders| == 0 then None
    else if Contains(folders[0], p, sep) then Some(folders[0])
    else
      var r := ContainingFolder(folders[1..], p, sep);
      assert forall i :: 1 <= i < |folders| ==> folders[i] == folders[1..][i - 1];
      r
  }

  /** `toWorkspaceRelative`: no mapping when no open folder contains `p`;
      otherwise the path relative to that folder with every host separator
      rewritten to "/" (`rel.split(path.sep).join("/")`). */
  function ToWorkspaceRelative(folders: seq<string>, p: string, sep: char): (r: Option<string>)
    ensures r.None? <==> forall i :: 0 <= i < |folders| ==> !Contains(folders[i], p, sep)
    ensures r.Some? ==>
      var root := ContainingFolder(folders, p, sep).value;
      Text.ReplacedChar(Relative(root, p, sep), r.value, sep, Slash)
    ensures r.Some? && sep != Slash ==> sep !in r.value
  {
    match ContainingFolder(folders, p, sep)
    case None => None
    case Some(root) =>
      var rel := Relative(root, p, sep);
      Text.SplitJoinReplaces(rel, sep, Slash);
      Some(Text.Join(Text.Split(rel, sep), Slash))
  }

  /** The first open folder itself maps to the empty relative path. */
  lemma RootMapsToEmpty(folders: seq<string>, sep: char)
    requires |folders| > 0
    ensures ToWorkspaceRelative(folders, folders[0], sep) == Some("")
  {
  }

  /** On a host whose separator is already "/", the relative path is kept as is. */
  lemma SlashHostKeepsRelative(folders: seq<string>, p: string)
    requires ContainingFolder(folders, p, Slash).Some?
    ensures ToWorkspaceRelative(folders, p, Slash)
         == Some(Relative(ContainingFolder(folders, p, Slash).value, p, Slash))
  {
    var rel := Relative(ContainingFolder(folders, p, Slash).value, p, Slash);
    Text.JoinSplit(rel, Slash);
  }

  /** With one open folder on a "/" host, a path below the folder maps to the
      part after the folder and its separator. */
  lemma ChildOfOnlyFolder(root: string, rel: string)
    ensures ToWorkspaceRelative([root], root + [Slash] + rel, Slash) == Some(rel)
  {
    var p := root + [Slash] + rel;
    assert p[..|root|] == root && p[|root|] == Slash;
    assert Contains(root, p, Slash);
    assert p != root;
    assert p[|root| + 1..] == rel;
    SlashHostKeepsRelative([root], p);
  }
}

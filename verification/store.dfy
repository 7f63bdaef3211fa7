/** The two path lists and their per-workspace persistence
    (`loadLists`, `saveLists`, `clearLists`). The host's workspace state,
    read and written under the key "repomixHelper.lists", is modelled as a
    map from workspace identity to the stored lists. */
module ListStore {
  import opened Order

  datatype Kind = Include | Ignore

  function Other(kind: Kind): Kind
  {
    match kind
    case Include => Ignore
    case Ignore => Include
  }

  datatype Lists = Lists(includes: seq<string>, ignores: seq<string>) {

    /** `lists[kind]` */
    function Get(kind: Kind): seq<string>
    {
      match kind
      case Include => includes
      case Ignore => ignores
    }

    /** These lists with `lists[kind]` replaced by `v`. */
    function With(kind: Kind, v: seq<string>): (r: Lists)
      ensures r.Get(kind) == v
      ensures r.Get(Other(kind)) == Get(Other(kind))
    {
      match kind
      case Include => this.(includes := v)
      case Ignore => this.(ignores := v)
    }
  }

  /** `{ include: [], ignore: [] }` */
  const Empty: Lists := Lists([], [])

  type WorkspaceId = string

  type Store = map<WorkspaceId, Lists>

  /** Both lists are in canonical form. */
  ghost predicate Canonical(l: Lists)
  {
    StrictlySorted(l.includes) && StrictlySorted(l.ignores)
  }

  /** Every stored value is in canonical form. */
  ghost predicate WellFormed(store: Store)
  {
    forall w :: w in store ==> Canonical(store[w])
  }

  /** Each list replaced by `uniqSorted` of itself. */
  function Canonicalize(l: Lists): (r: Lists)
    ensures Canonical(r)
    ensures Elems(r.includes) == Elems(l.includes)
    ensures Elems(r.ignores) == Elems(l.ignores)
  {
    Lists(UniqSorted(l.includes), UniqSorted(l.ignores))
  }

  /** `loadLists`: the stored value, or two empty lists when nothing is stored. */
  function Load(store: Store, w: WorkspaceId): (r: Lists)
    ensures w !in store ==> r == Empty
    ensures WellFormed(store) ==> Canonical(r)
  {
    if w in store then store[w] else Empty
  }

  /** `saveLists`: stores both lists together, each canonicalised, for this
      workspace only. */
  function Save(store: Store, w: WorkspaceId, l: Lists): (r: Store)
    ensures r.Keys == store.Keys + {w}
    ensures Canonical(r[w])
    ensures Elems(r[w].includes) == Elems(l.includes)
    ensures Elems(r[w].ignores) == Elems(l.ignores)
    ensures forall v :: v in store && v != w ==> r[v] == store[v]
    ensures WellFormed(store) ==> WellFormed(r)
  {
    store[w := Canonicalize(l)]
  }

  /** `clearLists`: both lists of this workspace become empty, whatever they held. */
  function Clear(store: Store, w: WorkspaceId): (r: Store)
    ensures Load(r, w) == Empty
    ensures r.Keys == store.Keys + {w}
    ensures forall v :: v in store && v != w ==> r[v] == store[v]
    ensures WellFormed(store) ==> WellFormed(r)
  {
    Save(store, w, Empty)
  }

  /** Saving what was just loaded from a well-formed store leaves the stored
      lists exactly as they were. */
  lemma SaveLoadRoundTrip(store: Store, w: WorkspaceId)
    requires WellFormed(store)
    ensures Load(Save(store, w, Load(store, w)), w) == Load(store, w)
  {
    var l := Load(store, w);
    UniqSortedKeepsCanonical(l.includes);
    UniqSortedKeepsCanonical(l.ignores);
  }

  /** Saving canonical lists that are already stored changes nothing. */
  lemma SaveStoredIsNoop(store: Store, w: WorkspaceId)
    requires w in store && Canonical(store[w])
    ensures Save(store, w, store[w]) == store
  {
    UniqSortedKeepsCanonical(store[w].includes);
    UniqSortedKeepsCanonical(store[w].ignores);
  }

  /** Clearing is absorbing: clearing a cleared store changes nothing more. */
  lemma ClearIdempotent(store: Store, w: WorkspaceId)
    ensures Clear(Clear(store, w), w) == Clear(store, w)
  {
  }

  /** Saving lists with the same members stores the same value, whatever the
      order or repetition of entries that were passed in. */
  lemma SaveOrderInsensitive(store: Store, w: WorkspaceId, a: Lists, b: Lists)
    requires Elems(a.includes) == Elems(b.includes)
    requires Elems(a.ignores) == Elems(b.ignores)
    ensures Save(store, w, a) == Save(store, w, b)
  {
    UniqSortedOrderInsensitive(a.includes, b.includes);
    UniqSortedOrderInsensitive(a.ignores, b.ignores);
  }
}

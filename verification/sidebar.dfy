/** The file sidebar (`Sidebar`): the session list, newest first; creating,
    choosing, deleting and renaming sessions; and nothing at all while the
    sidebar is closed.

    The session operations belong to a store this model does not contain:
    the handlers here yield the store calls they make, as `Command`s, and a
    minimal session map interprets them. */
module Sidebar {
  import opened Base
  import opened Text

  datatype Session = Session(id: string, name: string, updatedAt: int)

  /** Most recently updated first. */
  ghost predicate NewestFirst(s: seq<Session>) {
    forall i, j :: 0 <= i < j < |s| ==> s[i].updatedAt >= s[j].updatedAt
  }

  /** Places `x` before the first session not newer than it. */
  function InsertByRecent(x: Session, ys: seq<Session>): (r: seq<Session>)
    requires NewestFirst(ys)
    ensures NewestFirst(r)
    ensures multiset(r) == multiset(ys) + multiset{x}
    ensures |r| == |ys| + 1
    ensures r[0] == x || (ys != [] && r[0] == ys[0])
  {
    if ys == [] || x.updatedAt >= ys[0].updatedAt then [x] + ys
    else
      var rest := InsertByRecent(x, ys[1..]);
      var r := [ys[0]] + rest;
      assert multiset(r) == multiset{ys[0]} + multiset(rest);
      assert multiset(ys) == multiset{ys[0]} + multiset(ys[1..]) by {
        assert ys == [ys[0]] + ys[1..];
      }
      PrependKeepsNewestFirst(ys[0], rest);
      r
  }

  /** A session no older than the head of a newest-first list may go in
      front of it. */
  lemma PrependKeepsNewestFirst(y: Session, rest: seq<Session>)
    requires NewestFirst(rest)
    requires rest == [] || y.updatedAt >= rest[0].updatedAt
    ensures NewestFirst([y] + rest)
  {
    var r := [y] + rest;
    forall i, j | 0 <= i < j < |r|
      ensures r[i].updatedAt >= r[j].updatedAt
    {
      assert r[j] == rest[j - 1];
      if i > 0 {
        assert r[i] == rest[i - 1];
      } else {
        assert rest[0].updatedAt >= rest[j - 1].updatedAt;
      }
    }
  }

  /** `sortedSessions`: the sessions ordered by `updatedAt`, descending. */
  function SortByRecent(xs: seq<Session>): (r: seq<Session>)
    ensures NewestFirst(r)
    ensures multiset(r) == multiset(xs)
    ensures |r| == |xs|
  {
    if xs == [] then []
    else
      assert xs == [xs[0]] + xs[1..];
      InsertByRecent(xs[0], SortByRecent(xs[1..]))
  }

  /** A list already newest first comes back unchanged, so sorting twice is
      sorting once. */
  lemma {:induction false} SortKeepsSorted(xs: seq<Session>)
    requires NewestFirst(xs)
    ensures SortByRecent(xs) == xs
    decreases |xs|
  {
    if xs != [] {
      SortKeepsSorted(xs[1..]);
      assert xs == [xs[0]] + xs[1..];
    }
  }

  lemma SortIdempotent(xs: seq<Session>)
    ensures SortByRecent(SortByRecent(xs)) == SortByRecent(xs)
  {
    SortKeepsSorted(SortByRecent(xs));
  }

  /** The store calls the sidebar makes. */
  datatype Command =
    | AddSession
    | DeleteSession(id: string)
    | UpdateSessionName(id: string, name: string)
    | SetCurrentSession(id: string)
    | CloseSidebar

  /** `setSidebarOpen(false)`, only on the mobile layout. */
  function CloseOnMobile(isMobile: bool): (r: seq<Command>)
    ensures r == [] <==> !isMobile
    ensures r != [] ==> r == [CloseSidebar]
  {
    if isMobile then [CloseSidebar] else []
  }

  /** `handleCreateSession`. */
  function CreateClicked(isMobile: bool): (r: seq<Command>)
    ensures |r| >= 1 && r[0] == AddSession
    ensures (CloseSidebar in r) <==> isMobile
  {
    [AddSession] + CloseOnMobile(isMobile)
  }

  /** Clicking a session, or Enter on it: it becomes current, and the
      sidebar closes on mobile. */
  function SessionChosen(id: string, isMobile: bool): (r: seq<Command>)
    ensures |r| >= 1 && r[0] == SetCurrentSession(id)
    ensures (CloseSidebar in r) <==> isMobile
  {
    [SetCurrentSession(id)] + CloseOnMobile(isMobile)
  }

  /** A key pressed on a session row: only Enter chooses it. */
  function RowKeyDown(key: string, id: string, isMobile: bool): (r: seq<Command>)
    ensures key == "Enter" ==> r == SessionChosen(id, isMobile)
    ensures key != "Enter" ==> r == []
  {
    if key == "Enter" then SessionChosen(id, isMobile) else []
  }

  /** `handleDeleteSession`: refused while only one session is left. */
  function DeleteClicked(sessionCount: nat, id: string): (r: seq<Command>)
    ensures r == [] <==> sessionCount <= 1
    ensures r != [] ==> r == [DeleteSession(id)]
  {
    if sessionCount <= 1 then [] else [DeleteSession(id)]
  }

  /** The rename field: the session being renamed (`null` as `None`) and
      the text typed so far. */
  datatype Editing = Editing(editingId: Option<string>, editName: string)

  /** Truthiness of `editingId`: the empty string counts as no id. */
  predicate IsEditing(e: Editing) {
    e.editingId.Some? && e.editingId.value != ""
  }

  /** `handleRenameStart`, on double click. */
  function RenameStart(e: Editing, id: string, currentName: string): (r: Editing)
    ensures r.editingId == Some(id) && r.editName == currentName
  {
    Editing(Some(id), currentName)
  }

  /** The field's `onChange`. */
  function EditNameChanged(e: Editing, value: string): (r: Editing)
    ensures r.editingId == e.editingId && r.editName == value
  {
    e.(editName := value)
  }

  /** `handleRenameSave`, on Enter or blur: a non-blank name is stored
      trimmed; either way editing ends. */
  function RenameSave(e: Editing): (r: (Editing, seq<Command>))
    ensures r.0.editingId.None? && r.0.editName == e.editName
    ensures r.1 != [] <==> IsEditing(e) && Trim(e.editName) != ""
    ensures r.1 != [] ==> r.1 == [UpdateSessionName(e.editingId.value, Trim(e.editName))]
  {
    var done := e.(editingId := None);
    if IsEditing(e) && Trim(e.editName) != "" then
      (done, [UpdateSessionName(e.editingId.value, Trim(e.editName))])
    else (done, [])
  }

  /** A stored name is never blank and has no surrounding whitespace. */
  lemma SavedNameIsTrimmed(e: Editing)
    ensures forall c :: c in RenameSave(e).1 ==>
              c.UpdateSessionName? && c.name != "" && IsTrimmed(c.name)
  {
  }

  /** `handleKeyDown` on the rename field: Enter saves, Escape abandons. */
  function EditKeyDown(e: Editing, key: string): (r: (Editing, seq<Command>))
    ensures key == "Enter" ==> r == RenameSave(e)
    ensures key == "Escape" ==> r == (e.(editingId := None), [])
    ensures key != "Enter" && key != "Escape" ==> r == (e, [])
  {
    if key == "Enter" then RenameSave(e)
    else if key == "Escape" then (e.(editingId := None), [])
    else (e, [])
  }

  /** Escape never renames, whatever was typed. */
  lemma EscapeDiscards(e: Editing, typed: string)
    ensures var (after, commands) := EditKeyDown(EditNameChanged(e, typed), "Escape");
            commands == [] && after.editingId.None?
  {
  }

  /** One row of the list: the rename field for the session being renamed,
      otherwise its button with the current-session highlight and the
      delete button (hidden when it is the only session). */
  datatype Row =
    | EditRow(id: string, editName: string)
    | ItemRow(id: string, name: string, isCurrent: bool, deleteShown: bool)

  function RowOf(s: Session, e: Editing, currentSessionId: string, sessionCount: nat): (r: Row)
    ensures r.id == s.id
    ensures r.EditRow? <==> e.editingId == Some(s.id)
    ensures r.ItemRow? ==> r.name == s.name && (r.isCurrent <==> currentSessionId == s.id)
                           && (r.deleteShown <==> sessionCount > 1)
  {
    if e.editingId == Some(s.id) then EditRow(s.id, e.editName)
    else ItemRow(s.id, s.name, currentSessionId == s.id, sessionCount > 1)
  }

  /** The rendered sidebar: nothing when closed, otherwise one row per
      session, newest first. */
  function Render(isOpen: bool, sessions: seq<Session>, e: Editing, currentSessionId: string): (r: Option<seq<Row>>)
    ensures r.None? <==> !isOpen
    ensures r.Some? ==> |r.value| == |sessions|
    ensures r.Some? ==> forall i :: 0 <= i < |r.value| ==>
              r.value[i] == RowOf(SortByRecent(sessions)[i], e, currentSessionId, |sessions|)
  {
    if !isOpen then None
    else
      var sorted := SortByRecent(sessions);
      Some(seq(|sorted|, i requires 0 <= i < |sorted| => RowOf(sorted[i], e, currentSessionId, |sessions|)))
  }

  /** A minimal session map to interpret the commands: creation adds the
      session the store makes (given as a parameter, since the store, its
      fresh id and its timestamp are not part of this model), deletion
      removes the key, renaming replaces the name of a present session; the
      current id and the open flag are tracked. */
  datatype Store = Store(sessions: map<string, Session>, currentSessionId: string, isSidebarOpen: bool)

  function Perform(st: Store, c: Command, created: Session): (r: Store)
    ensures c.AddSession? ==> created.id in r.sessions && r.sessions[created.id] == created
    ensures c.AddSession? ==> forall k :: k != created.id ==> (k in r.sessions <==> k in st.sessions)
    ensures c.DeleteSession? ==> r.sessions == st.sessions - {c.id}
    ensures !c.AddSession? && !c.DeleteSession? ==> r.sessions.Keys == st.sessions.Keys
  {
    match c
    case AddSession => st.(sessions := st.sessions[created.id := created])
    case DeleteSession(id) => st.(sessions := st.sessions - {id})
    case UpdateSessionName(id, name) =>
      if id in st.sessions then st.(sessions := st.sessions[id := st.sessions[id].(name := name)]) else st
    case SetCurrentSession(id) => st.(currentSessionId := id)
    case CloseSidebar => st.(isSidebarOpen := false)
  }

  function PerformAll(st: Store, cs: seq<Command>, created: Session): Store
    decreases |cs|
  {
    if cs == [] then st else PerformAll(Perform(st, cs[0], created), cs[1..], created)
  }

  /** The create button adds exactly one session, the new one, whether or
      not the sidebar then closes. */
  lemma CreateAddsSession(st: Store, isMobile: bool, created: Session)
    requires created.id !in st.sessions
    ensures var after := PerformAll(st, CreateClicked(isMobile), created).sessions;
            && after.Keys == st.sessions.Keys + {created.id}
            && |after| == |st.sessions| + 1
            && after[created.id] == created
  {
    var cs := CreateClicked(isMobile);
    var added := Perform(st, AddSession, created);
    assert added.sessions == st.sessions[created.id := created];
    if isMobile {
      assert cs[1..] == [CloseSidebar] && [CloseSidebar][1..] == [];
      assert PerformAll(st, cs, created) == PerformAll(Perform(added, CloseSidebar, created), [], created);
    } else {
      assert cs[1..] == [];
    }
  }

  lemma DeleteKeepsOneSession(st: Store, id: string, created: Session)
    requires |st.sessions| >= 1
    ensures |PerformAll(st, DeleteClicked(|st.sessions|, id), created).sessions| >= 1
  {
    var cs := DeleteClicked(|st.sessions|, id);
    if cs != [] {
      assert cs[1..] == [];
      var after := st.sessions - {id};
      if id in st.sessions {
        assert st.sessions.Keys == after.Keys + {id};
        assert |st.sessions.Keys| == |after.Keys| + 1;
      } else {
        assert after == st.sessions;
      }
    }
  }
}

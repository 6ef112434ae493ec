/**
 * Layout records (ILayoutStorage.ts): a saved baseline, an optional working
 * copy with unsaved edits, and optional information about the copy on the
 * layout server.
 */
module LayoutStorage {
  import opened Wrappers

  type LayoutID = string
  /** An ISO 8601 time stamp; only compared for equality. */
  type Timestamp = string

  /** The panel configuration of a layout; its structure is not modelled. */
  type LayoutData

  datatype Permission = CreatorWrite | OrgRead | OrgWrite

  datatype SyncStatus = New | Updated | Tracked | LocallyDeleted | RemotelyDeleted

  /** A version of the layout's data and when it was saved. */
  datatype Snapshot = Snapshot(data: LayoutData, savedAt: Option<Timestamp>)

  datatype SyncInfo = SyncInfo(status: SyncStatus, lastRemoteSavedAt: Option<Timestamp>)

  datatype Layout = Layout(
    id: LayoutID,
    name: string,
    permission: Permission,
    baseline: Snapshot,
    working: Option<Snapshot>,
    syncInfo: Option<SyncInfo>)

  /** layoutPermissionIsShared */
  predicate PermissionIsShared(permission: Permission) {
    permission != CreatorWrite
  }

  /** layoutIsShared */
  predicate IsShared(layout: Layout) {
    PermissionIsShared(layout.permission)
  }

  /** layoutAppearsDeleted */
  predicate AppearsDeleted(layout: Layout) {
    || (layout.syncInfo.Some? && layout.syncInfo.value.status == LocallyDeleted)
    || (layout.syncInfo.Some? && layout.syncInfo.value.status == RemotelyDeleted && layout.working.None?)
  }

  /** The data a layout shows: the working copy when there is one, else the baseline. */
  function CurrentData(layout: Layout): LayoutData {
    if layout.working.Some? then layout.working.value.data else layout.baseline.data
  }

  /** Exactly the two organisation permissions are shared, and a layout is shared by its permission alone. */
  lemma SharedPermissions(p: Permission, layout: Layout)
    ensures PermissionIsShared(p) <==> (p == OrgRead || p == OrgWrite)
    ensures IsShared(layout) <==> (layout.permission == OrgRead || layout.permission == OrgWrite)
  {
  }

  /**
   * A locally deleted layout always appears deleted, a remotely deleted one
   * exactly when it has no working copy, and any other layout never does.
   */
  lemma AppearsDeletedCases(layout: Layout)
    ensures layout.syncInfo.Some? && layout.syncInfo.value.status == LocallyDeleted ==> AppearsDeleted(layout)
    ensures layout.syncInfo.Some? && layout.syncInfo.value.status == RemotelyDeleted ==>
      (AppearsDeleted(layout) <==> layout.working.None?)
    ensures layout.syncInfo.None? ==> !AppearsDeleted(layout)
    ensures layout.syncInfo.Some? && layout.syncInfo.value.status in {New, Updated, Tracked} ==> !AppearsDeleted(layout)
  {
  }

  /**
   * The layouts a store lists after hiding those that appear deleted
   * (the filter of getLayouts).
   */
  function Visible(store: map<LayoutID, Layout>): (v: map<LayoutID, Layout>)
    ensures forall id :: id in v <==> id in store && !AppearsDeleted(store[id])
    ensures forall id :: id in v ==> v[id] == store[id]
  {
    map id | id in store && !AppearsDeleted(store[id]) :: store[id]
  }

  /** Storing a layout lists it exactly when it does not appear deleted; nothing else changes. */
  lemma VisiblePut(store: map<LayoutID, Layout>, layout: Layout)
    ensures Visible(store[layout.id := layout]) ==
      if AppearsDeleted(layout) then Visible(store) - {layout.id} else Visible(store)[layout.id := layout]
  {
  }

  /** Removing a layout stops listing it; nothing else changes. */
  lemma VisibleRemove(store: map<LayoutID, Layout>, id: LayoutID)
    ensures Visible(store - {id}) == Visible(store) - {id}
  {
  }
}

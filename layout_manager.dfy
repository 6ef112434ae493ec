/**
 * LayoutManager (LayoutManager.ts): the local side of layout management.
 * Each operation reads one record from local storage, builds its new
 * baseline, working copy and sync information, and stores or deletes it.
 * Local storage is a map from id to layout; the time stamp, fresh ids and
 * the layout server's replies are parameters.
 */
module Layouts {
  import opened Wrappers
  import opened LayoutStorage

  datatype LayoutError =
    | NotFound         // no stored layout has the id
    | NoRemote         // a shared layout without remote layout storage
    | Offline          // a shared layout needs the server while offline

  /** The layout as the server returns it after a save, rename or overwrite. */
  datatype RemoteLayout = RemoteLayout(
    id: LayoutID,
    name: string,
    permission: Permission,
    data: LayoutData,
    savedAt: Option<Timestamp>)

  /** The local record of a layout the server has just confirmed. */
  function TrackedFromRemote(reply: RemoteLayout): (l: Layout)
    ensures l.id == reply.id && l.working.None? && !AppearsDeleted(l)
    ensures l.syncInfo == Some(SyncInfo(Tracked, reply.savedAt)) && l.baseline.savedAt == reply.savedAt
  {
    Layout(reply.id, reply.name, reply.permission, Snapshot(reply.data, reply.savedAt), None,
           Some(SyncInfo(Tracked, reply.savedAt)))
  }

  /**
   * The working copy after an edit: no new data keeps the working copy, data
   * the comparison finds equal to the baseline clears it, other data becomes
   * the working copy saved at `now`.
   */
  function EditedWorking(layout: Layout, data: Option<LayoutData>, now: Timestamp,
                         isLayoutEqual: (LayoutData, LayoutData) -> bool): (w: Option<Snapshot>)
    ensures data.None? ==> w == layout.working
    ensures data.Some? ==> (w.None? <==> isLayoutEqual(layout.baseline.data, data.value))
    ensures data.Some? && w.Some? ==> w.value == Snapshot(data.value, Some(now))
  {
    if data.None? then layout.working
    else if isLayoutEqual(layout.baseline.data, data.value) then None
    else Some(Snapshot(data.value, Some(now)))
  }

  /** A local rename must later be uploaded: remote storage exists and the layout is already on the server. */
  predicate IsRename(supportsSharing: bool, name: Option<string>, layout: Layout) {
    supportsSharing && name.Some? && layout.syncInfo.Some? && layout.syncInfo.value.status != New
  }

  /** The stored record after an update of a layout that is not shared, or not renamed. */
  function UpdatedLocally(layout: Layout, name: Option<string>, working: Option<Snapshot>, now: Timestamp,
                          supportsSharing: bool): (l: Layout)
    ensures l.id == layout.id && l.permission == layout.permission && l.working == working
    ensures l.name == (if name.Some? then name.value else layout.name)
    ensures IsRename(supportsSharing, name, layout) ==>
      && l.baseline == Snapshot(layout.baseline.data, Some(now))
      && l.syncInfo == Some(SyncInfo(Updated, layout.syncInfo.value.lastRemoteSavedAt))
    ensures !IsRename(supportsSharing, name, layout) ==>
      l.baseline == layout.baseline && l.syncInfo == layout.syncInfo
  {
    var rename := IsRename(supportsSharing, name, layout);
    layout.(name := name.GetOr(layout.name),
            working := working,
            baseline := if rename then layout.baseline.(savedAt := Some(now)) else layout.baseline,
            syncInfo := if rename then Some(SyncInfo(Updated, layout.syncInfo.value.lastRemoteSavedAt))
                        else layout.syncInfo)
  }

  /**
   * The record a local deletion leaves while remote storage exists: the
   * current data kept as the working copy and the status locally deleted.
   */
  function MarkedDeleted(layout: Layout, now: Timestamp): (l: Layout)
    ensures l.id == layout.id && AppearsDeleted(l)
    ensures l.working == Some(Snapshot(CurrentData(layout), Some(now)))
    ensures l.baseline == layout.baseline && l.name == layout.name && l.permission == layout.permission
    ensures l.syncInfo.value.lastRemoteSavedAt ==
      (if layout.syncInfo.Some? then layout.syncInfo.value.lastRemoteSavedAt else None)
  {
    layout.(working := Some(Snapshot(CurrentData(layout), Some(now))),
            syncInfo := Some(SyncInfo(LocallyDeleted,
                                      if layout.syncInfo.Some? then layout.syncInfo.value.lastRemoteSavedAt else None)))
  }

  /**
   * The stored record after saving the working copy of a layout that is not
   * shared: the current data becomes the baseline saved at `now`; the status
   * becomes updated when remote storage exists and the layout is not new.
   */
  function OverwrittenLocally(layout: Layout, now: Timestamp, supportsSharing: bool): (l: Layout)
    ensures l.id == layout.id && l.name == layout.name && l.permission == layout.permission
    ensures l.baseline == Snapshot(CurrentData(layout), Some(now)) && l.working.None?
    ensures CurrentData(l) == CurrentData(layout)
    ensures supportsSharing && !(layout.syncInfo.Some? && layout.syncInfo.value.status == New) ==>
      l.syncInfo == Some(SyncInfo(Updated, if layout.syncInfo.Some? then layout.syncInfo.value.lastRemoteSavedAt else None))
    ensures !supportsSharing || (layout.syncInfo.Some? && layout.syncInfo.value.status == New) ==>
      l.syncInfo == layout.syncInfo
  {
    var syncInfo :=
      if supportsSharing && !(layout.syncInfo.Some? && layout.syncInfo.value.status == New)
      then Some(SyncInfo(Updated, if layout.syncInfo.Some? then layout.syncInfo.value.lastRemoteSavedAt else None))
      else layout.syncInfo;
    layout.(baseline := Snapshot(CurrentData(layout), Some(now)), working := None, syncInfo := syncInfo)
  }

  /** The new personal layout copied from `layout`: its current data, owned by the creator, new since `now`. */
  function PersonalCopy(layout: Layout, newId: LayoutID, name: string, now: Timestamp): (l: Layout)
    ensures l.id == newId && l.name == name && l.permission == CreatorWrite && !IsShared(l)
    ensures l.baseline == Snapshot(CurrentData(layout), Some(now)) && l.working.None?
    ensures CurrentData(l) == CurrentData(layout) && !AppearsDeleted(l)
    ensures l.syncInfo == Some(SyncInfo(New, Some(now)))
  {
    Layout(newId, name, CreatorWrite, Snapshot(CurrentData(layout), Some(now)), None, Some(SyncInfo(New, Some(now))))
  }

  class LayoutManager {
    /** Local layout storage, keyed by layout id. */
    var local: map<LayoutID, Layout>
    /** Whether remote layout storage was given. */
    const supportsSharing: bool
    var isOnline: bool
    var error: Option<string>
    /** compareLayouts' isLayoutEqual. */
    const isLayoutEqual: (LayoutData, LayoutData) -> bool
    /** migratePanelsState. */
    const migrate: LayoutData -> LayoutData

    /** Every layout is stored under its own id. */
    ghost predicate Valid()
      reads this
    {
      forall id :: id in local ==> local[id].id == id
    }

    constructor (local: map<LayoutID, Layout>, hasRemote: bool,
                 isLayoutEqual: (LayoutData, LayoutData) -> bool, migrate: LayoutData -> LayoutData)
      requires forall id :: id in local ==> local[id].id == id
      ensures Valid()
      ensures this.local == local && supportsSharing == hasRemote && !isOnline && error.None?
      ensures this.isLayoutEqual == isLayoutEqual && this.migrate == migrate
    {
      this.local := local;
      supportsSharing := hasRemote;
      isOnline := false;
      error := None;
      this.isLayoutEqual := isLayoutEqual;
      this.migrate := migrate;
    }

    method SetOnline(online: bool)
      modifies this`isOnline
      ensures isOnline == online
    {
      isOnline := online;
    }

    method SetError(e: Option<string>)
      modifies this`error
      ensures error == e
    {
      error := e;
    }

    /** getLayouts: the stored layouts that do not appear deleted. */
    function GetLayouts(): (v: map<LayoutID, Layout>)
      reads this
      ensures forall id :: id in v <==> id in local && !AppearsDeleted(local[id])
      ensures forall id :: id in v ==> v[id] == local[id]
    {
      Visible(local)
    }

    /** getLayout: the stored layout with the id, deleted-looking or not. */
    function GetLayout(id: LayoutID): (r: Option<Layout>)
      reads this
      ensures r.Some? <==> id in local
      ensures r.Some? ==> r.value == local[id]
    {
      if id in local then Some(local[id]) else None
    }

    /**
     * saveNewLayout. A shared layout needs remote storage and a connection;
     * the server's reply is stored as tracked. Any other layout is stored
     * under `newId` with its data migrated, saved at `now`, and status new
     * exactly when remote storage exists.
     */
    method SaveNewLayout(name: string, data: LayoutData, permission: Permission,
                         newId: LayoutID, now: Timestamp, reply: RemoteLayout)
      returns (r: Result<Layout, LayoutError>)
      requires Valid()
      modifies this`local
      ensures Valid()
      ensures PermissionIsShared(permission) && !supportsSharing ==> r == Failure(NoRemote) && local == old(local)
      ensures PermissionIsShared(permission) && supportsSharing && !isOnline ==>
        r == Failure(Offline) && local == old(local)
      ensures PermissionIsShared(permission) && supportsSharing && isOnline ==>
        r == Success(TrackedFromRemote(reply)) && local == old(local)[reply.id := r.value]
      ensures !PermissionIsShared(permission) ==>
        && r == Success(Layout(newId, name, permission, Snapshot(migrate(data), Some(now)), None,
                               if supportsSharing then Some(SyncInfo(New, None)) else None))
        && local == old(local)[newId := r.value]
      ensures r.Success? ==> GetLayouts() == old(GetLayouts())[r.value.id := r.value]
    {
      var migrated := migrate(data);
      if PermissionIsShared(permission) {
        if !supportsSharing {
          return Failure(NoRemote);
        }
        if !isOnline {
          return Failure(Offline);
        }
        var result := TrackedFromRemote(reply);
        VisiblePut(local, result);
        local := local[result.id := result];
        return Success(result);
      }
      var newLayout := Layout(newId, name, permission, Snapshot(migrated, Some(now)), None,
                              if supportsSharing then Some(SyncInfo(New, None)) else None);
      VisiblePut(local, newLayout);
      local := local[newId := newLayout];
      return Success(newLayout);
    }

    /**
     * updateLayout. A rename of a shared layout goes to the server and stores
     * its reply as tracked; any other update renames locally (see
     * UpdatedLocally). Both replace the working copy by EditedWorking.
     */
    method UpdateLayout(id: LayoutID, name: Option<string>, data: Option<LayoutData>,
                        now: Timestamp, reply: RemoteLayout)
      returns (r: Result<Layout, LayoutError>)
      requires Valid()
      modifies this`local
      ensures Valid()
      ensures id !in old(local) ==> r == Failure(NotFound) && local == old(local)
      ensures id in old(local) ==>
        var layout := old(local[id]);
        var working := EditedWorking(layout, data, now, isLayoutEqual);
        if name.Some? && IsShared(layout) then
          && (!supportsSharing ==> r == Failure(NoRemote) && local == old(local))
          && (supportsSharing && !isOnline ==> r == Failure(Offline) && local == old(local))
          && (supportsSharing && isOnline ==>
                && r == Success(layout.(name := reply.name, baseline := Snapshot(reply.data, reply.savedAt),
                                        working := working, syncInfo := Some(SyncInfo(Tracked, reply.savedAt))))
                && local == old(local)[id := r.value])
        else
          && r == Success(UpdatedLocally(layout, name, working, now, supportsSharing))
          && local == old(local)[id := r.value]
    {
      if id !in local {
        return Failure(NotFound);
      }
      var localLayout := local[id];
      var newWorking := EditedWorking(localLayout, data, now, isLayoutEqual);
      if name.Some? && IsShared(localLayout) {
        if !supportsSharing {
          return Failure(NoRemote);
        }
        if !isOnline {
          return Failure(Offline);
        }
        var result := localLayout.(name := reply.name, baseline := Snapshot(reply.data, reply.savedAt),
                                   working := newWorking, syncInfo := Some(SyncInfo(Tracked, reply.savedAt)));
        local := local[id := result];
        return Success(result);
      }
      var result := UpdatedLocally(localLayout, name, newWorking, now, supportsSharing);
      local := local[id := result];
      return Success(result);
    }

    /**
     * deleteLayout. A shared layout needs remote storage and, unless the
     * server already deleted it, a connection. A layout that is not shared
     * is kept, marked locally deleted, while remote storage exists; otherwise
     * the record is removed. Either way it is no longer listed.
     */
    method DeleteLayout(id: LayoutID, now: Timestamp) returns (r: Result<(), LayoutError>)
      requires Valid()
      modifies this`local
      ensures Valid()
      ensures id !in old(local) ==> r == Failure(NotFound) && local == old(local)
      ensures id in old(local) ==>
        var layout := old(local[id]);
        var serverDeleted := layout.syncInfo.Some? && layout.syncInfo.value.status == RemotelyDeleted;
        && (IsShared(layout) && !supportsSharing ==> r == Failure(NoRemote) && local == old(local))
        && (IsShared(layout) && supportsSharing && !serverDeleted && !isOnline ==>
              r == Failure(Offline) && local == old(local))
        && (supportsSharing && !IsShared(layout) ==> r.Success? && local == old(local)[id := MarkedDeleted(layout, now)])
        && (!supportsSharing && !IsShared(layout) ==> r.Success? && local == old(local) - {id})
        && (IsShared(layout) && supportsSharing && (serverDeleted || isOnline) ==>
              r.Success? && local == old(local) - {id})
      ensures r.Success? ==> GetLayouts() == old(GetLayouts()) - {id}
    {
      if id !in local {
        return Failure(NotFound);
      }
      var localLayout := local[id];
      if IsShared(localLayout) {
        if !supportsSharing {
          return Failure(NoRemote);
        }
        if !(localLayout.syncInfo.Some? && localLayout.syncInfo.value.status == RemotelyDeleted) {
          if !isOnline {
            return Failure(Offline);
          }
        }
      }
      if supportsSharing && !IsShared(localLayout) {
        var marked := MarkedDeleted(localLayout, now);
        VisiblePut(local, marked);
        local := local[id := marked];
      } else {
        VisibleRemove(local, id);
        local := local - {id};
      }
      return Success(());
    }

    /**
     * overwriteLayout: makes the current data the baseline and drops the
     * working copy. A shared layout sends it to the server (which needs
     * remote storage and a connection) and stores the reply as tracked.
     */
    method OverwriteLayout(id: LayoutID, now: Timestamp, reply: RemoteLayout)
      returns (r: Result<Layout, LayoutError>)
      requires Valid()
      modifies this`local
      ensures Valid()
      ensures id !in old(local) ==> r == Failure(NotFound) && local == old(local)
      ensures id in old(local) ==>
        var layout := old(local[id]);
        if IsShared(layout) then
          && (!supportsSharing ==> r == Failure(NoRemote) && local == old(local))
          && (supportsSharing && !isOnline ==> r == Failure(Offline) && local == old(local))
          && (supportsSharing && isOnline ==>
                && r == Success(layout.(baseline := Snapshot(reply.data, reply.savedAt), working := None,
                                        syncInfo := Some(SyncInfo(Tracked, reply.savedAt))))
                && local == old(local)[id := r.value])
        else
          && r == Success(OverwrittenLocally(layout, now, supportsSharing))
          && local == old(local)[id := r.value]
      ensures r.Success? ==> r.value.working.None? && r.value.id == id
    {
      if id !in local {
        return Failure(NotFound);
      }
      var localLayout := local[id];
      if IsShared(localLayout) {
        if !supportsSharing {
          return Failure(NoRemote);
        }
        if !isOnline {
          return Failure(Offline);
        }
        var result := localLayout.(baseline := Snapshot(reply.data, reply.savedAt), working := None,
                                   syncInfo := Some(SyncInfo(Tracked, reply.savedAt)));
        local := local[id := result];
        return Success(result);
      }
      var result := OverwrittenLocally(localLayout, now, supportsSharing);
      local := local[id := result];
      return Success(result);
    }

    /** revertLayout: drops the working copy and changes nothing else. */
    method RevertLayout(id: LayoutID) returns (r: Result<Layout, LayoutError>)
      requires Valid()
      modifies this`local
      ensures Valid()
      ensures id !in old(local) ==> r == Failure(NotFound) && local == old(local)
      ensures id in old(local) ==>
        && r == Success(old(local[id]).(working := None))
        && local == old(local)[id := r.value]
        && CurrentData(r.value) == old(local[id]).baseline.data
    {
      if id !in local {
        return Failure(NotFound);
      }
      var layout := local[id];
      var result := layout.(working := None);
      local := local[id := result];
      return Success(result);
    }

    /**
     * makePersonalCopy: stores a personal copy of the layout's current data
     * under `newId`, then drops the original's working copy and returns the
     * original.
     */
    method MakePersonalCopy(id: LayoutID, name: string, newId: LayoutID, now: Timestamp)
      returns (r: Result<Layout, LayoutError>)
      requires Valid()
      modifies this`local
      ensures Valid()
      ensures id !in old(local) ==> r == Failure(NotFound) && local == old(local)
      ensures id in old(local) ==>
        && r == Success(old(local[id]).(working := None))
        && local == old(local)[newId := PersonalCopy(old(local[id]), newId, name, now)][id := r.value]
      ensures id in old(local) && newId != id ==>
        && newId in local && CurrentData(local[newId]) == CurrentData(old(local[id]))
        && newId in GetLayouts()
    {
      if id !in local {
        return Failure(NotFound);
      }
      var layout := local[id];
      var copy := PersonalCopy(layout, newId, name, now);
      local := local[newId := copy];
      var result := layout.(working := None);
      local := local[id := result];
      return Success(result);
    }
  }
}

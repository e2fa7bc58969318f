/** The backend `Context`: views onto one shared store of compiled artifacts.
    Each view carries its own access-control list; every view made from a
    root shares the root's flags, paths, frontend context and features cell.
    Shared cells are modelled as indices into a `Store`, persisted files as a
    map from path to bytes in the same store. Access lists range over work ids
    whose frontend part is the stand-in `WorkIds.FeWorkId`. */
module Contexts {
  import opened Wrappers
  import opened FontTypes
  import opened Errors
  import opened WorkIds

  /** Which work ids a view may read and which it may write. */
  datatype Acl = Acl(read: AnyWorkId<FeWorkId> -> bool, write: AnyWorkId<FeWorkId> -> bool)

  /** `AccessControlList::read_only()`: read anything, write nothing. */
  function ReadOnly(): (acl: Acl)
    ensures forall id :: acl.read(id) && !acl.write(id)
  {
    Acl(_ => true, _ => false)
  }

  /** `AccessControlList::read_write(read, write)`. */
  function ReadWrite(read: AnyWorkId<FeWorkId> -> bool, write: AnyWorkId<FeWorkId> -> bool): (acl: Acl)
    ensures acl.read == read && acl.write == write
  {
    Acl(read, write)
  }

  datatype Flags = Flags(emitIr: bool, emitDebug: bool)

  /** Where persisted artifacts live. */
  datatype Paths = Paths(buildDir: string)

  datatype FilePath = FilePath(dir: string, id: WorkId)

  /** `Paths::target_file`: one file per work id. */
  function TargetFile(paths: Paths, id: WorkId): (f: FilePath)
    ensures f.dir == paths.buildDir && f.id == id
  {
    FilePath(paths.buildDir, id)
  }

  /** `ir` is a handle on the read-only frontend context. */
  datatype Context = Context(flags: Flags, paths: Paths, ir: nat, acl: Acl, features: nat)

  /** The shared cells and the persisted files. */
  datatype Store = Store(cells: seq<Option<seq<byte>>>, disk: map<FilePath, seq<byte>>)

  /** A view refers to an allocated cell. */
  predicate Valid(ctx: Context, store: Store)
  {
    ctx.features < |store.cells|
  }

  const FeaturesId: WorkId := Features

  /** `Context::new_root`: a fresh, empty features cell, read-only access. */
  function NewRoot(flags: Flags, paths: Paths, ir: nat, store: Store): (r: (Context, Store))
    ensures Valid(r.0, r.1)
    ensures r.0.flags == flags && r.0.paths == paths && r.0.ir == ir
    ensures r.0.acl == ReadOnly()
    ensures r.1.cells[r.0.features] == None
    ensures forall c: Context :: Valid(c, store) ==> c.features != r.0.features
    ensures |r.1.cells| == |store.cells| + 1 && r.1.cells[..|store.cells|] == store.cells && r.1.disk == store.disk
  {
    (Context(flags, paths, ir, ReadOnly(), |store.cells|), Store(store.cells + [None], store.disk))
  }

  /** `Context::copy`: the same shared state under another access list. */
  function Copy(ctx: Context, acl: Acl): (r: Context)
    ensures r.flags == ctx.flags && r.paths == ctx.paths && r.ir == ctx.ir && r.features == ctx.features
    ensures r.acl == acl
  {
    ctx.(acl := acl)
  }

  /** `Context::copy_for_work`. */
  function CopyForWork(ctx: Context, read: AnyWorkId<FeWorkId> -> bool, write: AnyWorkId<FeWorkId> -> bool)
    : (r: Context)
    ensures r.flags == ctx.flags && r.paths == ctx.paths && r.ir == ctx.ir && r.features == ctx.features
    ensures forall id :: r.acl.read(id) == read(id) && r.acl.write(id) == write(id)
  {
    Copy(ctx, ReadWrite(read, write))
  }

  /** `Context::copy_read_only`. */
  function CopyReadOnly(ctx: Context): (r: Context)
    ensures r.flags == ctx.flags && r.paths == ctx.paths && r.ir == ctx.ir && r.features == ctx.features
    ensures forall id :: r.acl.read(id) && !r.acl.write(id)
  {
    Copy(ctx, ReadOnly())
  }

  /** `maybe_persist`: write the file only when `EMIT_IR` is set. A failing
      write is not modelled. */
  function MaybePersist(ctx: Context, store: Store, file: FilePath, content: seq<byte>): (r: Store)
    ensures r.cells == store.cells
    ensures ctx.flags.emitIr ==> r.disk == store.disk[file := content]
    ensures !ctx.flags.emitIr ==> r.disk == store.disk
  {
    if !ctx.flags.emitIr then store
    else store.(disk := store.disk[file := content])
  }

  /** What a view currently sees for the features: the cached value, or the
      persisted file when the cell is still empty. */
  function Visible(ctx: Context, store: Store): Option<seq<byte>>
    requires Valid(ctx, store)
  {
    match store.cells[ctx.features]
    case Some(v) => Some(v)
    case None =>
      var file := TargetFile(ctx.paths, FeaturesId);
      if file in store.disk then Some(store.disk[file]) else None
  }

  /** `get_features`: check read access; return the cached value, or restore
      it from disk and cache it. A missing file panics. */
  function GetFeatures(ctx: Context, store: Store): (r: Result<(seq<byte>, Store), Panic>)
    requires Valid(ctx, store)
    ensures !ctx.acl.read(Be(FeaturesId)) ==> r == Err(AccessDenied)
    ensures ctx.acl.read(Be(FeaturesId)) ==> (r.Ok? <==> Visible(ctx, store).Some?)
    ensures r.Err? ==> r.error == AccessDenied || r.error == RestoreFailed
    ensures r.Ok? ==>
      && Some(r.value.0) == Visible(ctx, store)
      && |r.value.1.cells| == |store.cells|
      && r.value.1.cells[ctx.features] == Some(r.value.0)
      && r.value.1.disk == store.disk
      && forall i :: 0 <= i < |store.cells| && i != ctx.features ==> r.value.1.cells[i] == store.cells[i]
  {
    if !ctx.acl.read(Be(FeaturesId)) then Err(AccessDenied)
    else match store.cells[ctx.features]
      case Some(v) => Ok((v, store))
      case None =>
        var file := TargetFile(ctx.paths, FeaturesId);
        if file !in store.disk then Err(RestoreFailed)
        else
          var font := store.disk[file];
          Ok((font, store.(cells := store.cells[ctx.features := Some(font)])))
  }

  /** `set_features`: check write access, persist when asked to, then store
      the built bytes in the shared cell. */
  function SetFeatures(ctx: Context, store: Store, font: seq<byte>): (r: Result<Store, Panic>)
    requires Valid(ctx, store)
    ensures r.Err? <==> !ctx.acl.write(Be(FeaturesId))
    ensures r.Err? ==> r.error == AccessDenied
    ensures r.Ok? ==>
      && |r.value.cells| == |store.cells|
      && r.value.cells[ctx.features] == Some(font)
      && (forall i :: 0 <= i < |store.cells| && i != ctx.features ==> r.value.cells[i] == store.cells[i])
      && r.value.disk == (if ctx.flags.emitIr then store.disk[TargetFile(ctx.paths, FeaturesId) := font]
                          else store.disk)
  {
    if !ctx.acl.write(Be(FeaturesId)) then Err(AccessDenied)
    else
      var persisted := MaybePersist(ctx, store, TargetFile(ctx.paths, FeaturesId), font);
      Ok(persisted.(cells := persisted.cells[ctx.features := Some(font)]))
  }

  /** A value set through one work's view is what any other view of the same
      root then reads, whatever was cached or persisted before. */
  lemma SetThenGetAcrossCopies(writer: Context, reader: Context, store: Store, font: seq<byte>)
    requires Valid(writer, store) && reader.features == writer.features
    requires writer.acl.write(Be(FeaturesId)) && reader.acl.read(Be(FeaturesId))
    ensures var s := SetFeatures(writer, store, font);
            s.Ok? && Valid(reader, s.value) && GetFeatures(reader, s.value) == Ok((font, s.value))
  {
  }

  /** Once a get succeeds, later gets through any view sharing the cell
      return the same value and change nothing more. */
  lemma GetIsStable(ctx: Context, other: Context, store: Store)
    requires Valid(ctx, store) && GetFeatures(ctx, store).Ok?
    requires other.features == ctx.features && other.acl.read(Be(FeaturesId))
    ensures var (v, after) := GetFeatures(ctx, store).value;
            Valid(other, after) && GetFeatures(other, after) == Ok((v, after))
  {
  }

  /** Restoring caches: a get does not change what any view sees. */
  lemma GetKeepsVisible(ctx: Context, other: Context, store: Store)
    requires Valid(ctx, store) && Valid(other, store) && GetFeatures(ctx, store).Ok?
    requires other.paths == ctx.paths
    ensures Visible(other, GetFeatures(ctx, store).value.1) == Visible(other, store)
  {
  }

  /** A root and every read-only copy can read but never write the features. */
  lemma ReadOnlyViewsCannotWrite(flags: Flags, paths: Paths, ir: nat, store: Store, font: seq<byte>)
    ensures var (root, s) := NewRoot(flags, paths, ir, store);
            && SetFeatures(root, s, font) == Err(AccessDenied)
            && SetFeatures(CopyReadOnly(root), s, font) == Err(AccessDenied)
            && (GetFeatures(root, s).Ok? <==> TargetFile(paths, FeaturesId) in store.disk)
  {
  }

  /** Setting through one view never touches a different root's cell. */
  lemma SetIsolatesRoots(ctx: Context, other: Context, store: Store, font: seq<byte>)
    requires Valid(ctx, store) && Valid(other, store) && other.features != ctx.features
    requires SetFeatures(ctx, store, font).Ok?
    ensures SetFeatures(ctx, store, font).value.cells[other.features] == store.cells[other.features]
  {
  }
}

/**
 * Reconciling a sheet with the site (`s2p_process_sheet`): the sheet settings with their
 * defaults, the required-column check, the per-row decision (skipped, unchanged, updated or
 * created) against a store of posts keyed by title, the counters, and the single-row dry run.
 *
 * The posts of the sheet's post type are a map from title to id and stored row hash; looking a
 * title up is `get_page_by_title` plus `get_post_meta(..., '_s2p_row_hash')`. Whether a write,
 * an image attachment or the digest succeed or what they return is decided by functions in `Env`.
 */
module Sync {
  import opened Options
  import opened PhpText
  import opened WordPress
  import opened SheetRows
  import SheetConfig
  import RowHash
  import Tags
  import Markdown
  import Template

  // ---------------------------------------------------------------------------
  // Settings and collaborators
  // ---------------------------------------------------------------------------

  /** The sheet settings after the `isset(...) ? ... : default` reads. */
  datatype Settings = Settings(name: string, sheetUrl: string, mode: string, template: string, postType: string)

  function ReadSettings(cfg: SheetConfig.RawSheet): (s: Settings)
    ensures cfg.name.None? ==> s.name == "Sheet"
    ensures cfg.mode.None? ==> s.mode == "simple"
    ensures cfg.template.None? ==> s.template == SheetConfig.DefaultTemplate
    ensures cfg.postType.None? ==> s.postType == "post"
    ensures cfg.sheetUrl.None? ==> s.sheetUrl == ""
    ensures cfg.name.Some? ==> s.name == cfg.name.value
    ensures cfg.sheetUrl.Some? ==> s.sheetUrl == cfg.sheetUrl.value
    ensures cfg.mode.Some? ==> s.mode == cfg.mode.value
    ensures cfg.template.Some? ==> s.template == cfg.template.value
    ensures cfg.postType.Some? ==> s.postType == cfg.postType.value
  {
    Settings(
      cfg.name.GetOr("Sheet"),
      cfg.sheetUrl.GetOr(""),
      cfg.mode.GetOr("simple"),
      cfg.template.GetOr(SheetConfig.DefaultTemplate),
      cfg.postType.GetOr("post"))
  }

  datatype Status = Publish | Draft

  function StatusName(s: Status): string {
    match s
    case Publish => "publish"
    case Draft => "draft"
  }

  /** A post write: `wp_update_post` of an existing id, or `wp_insert_post`. */
  datatype Write =
    | UpdatePost(id: nat, title: string, content: string, status: Status, postType: string)
    | InsertPost(title: string, content: string, status: Status, postType: string)

  /** The effects the sync depends on but whose code is not part of this model. */
  datatype Env = Env(
    /** `md5(json_encode(...))` of the hash record */
    digest: RowHash.HashInput -> string,
    /** whether the write succeeds rather than returning a `WP_Error` */
    writeOk: Write -> bool,
    /** whether validating, downloading and attaching the image at this URL to this post succeeds */
    imageOk: (nat, string) -> bool
  )

  /** Everything one run of the sheet shares. */
  datatype Ctx = Ctx(sheetKey: string, settings: Settings, columns: HeaderMap, wp: Wp, env: Env)

  // ---------------------------------------------------------------------------
  // Per-row values
  // ---------------------------------------------------------------------------

  /** `publish` when the trimmed, lower-cased status cell is exactly `publish`, `draft` otherwise. */
  function StatusOf(cell: string): Status {
    if Lower(Trim(cell)) == "publish" then Publish else Draft
  }

  /** The status test is a case-insensitive comparison of the trimmed cell with `publish`. */
  lemma PublishExactly(cell: string)
    ensures StatusOf(cell) == Publish <==>
      |Trim(cell)| == 7 && forall i :: 0 <= i < 7 ==> LowerChar(Trim(cell)[i]) == "publish"[i]
  {
    var t := Trim(cell);
    if |t| == 7 && forall i :: 0 <= i < 7 ==> LowerChar(t[i]) == "publish"[i] {
      assert Lower(t) == "publish";
    }
  }

  function RowTitle(ctx: Ctx, row: Row): string {
    ctx.wp.sanitizeTextField(Cell(row, ctx.columns, "title"))
  }

  /** The two checks that make the real sync skip a row before looking at the store. */
  predicate Kept(ctx: Ctx, row: Row) {
    RowTitle(ctx, row) != "" &&
    (ctx.settings.mode == "developer" || Trim(Cell(row, ctx.columns, "content")) != "")
  }

  /** The values computed for a row. */
  datatype RowValues = RowValues(
    content: string, category: string, tags: string, image: string, status: Status, hash: string)

  /** Developer mode fills the template; any other mode renders the `content` cell as Markdown. */
  function RowContent(ctx: Ctx, row: Row): string {
    if ctx.settings.mode == "developer" then
      Template.ApplyTemplate(ctx.settings.template, row, ctx.columns, ctx.wp)
    else
      ctx.wp.ksesPost(Markdown.MarkdownToHtml(Cell(row, ctx.columns, "content"), ctx.wp.escHtml))
  }

  function Values(ctx: Ctx, row: Row, title: string): RowValues {
    var s := ctx.settings;
    var content := RowContent(ctx, row);
    var category := ctx.wp.sanitizeTextField(Cell(row, ctx.columns, "category"));
    var tags := Cell(row, ctx.columns, "tags");
    var image := ctx.wp.escUrlRaw(Cell(row, ctx.columns, "featured_image"));
    var status := StatusOf(Cell(row, ctx.columns, "status"));
    var hash := RowHash.BuildRowHash(s.mode, s.template, title, content, category, tags, image,
                                     StatusName(status), s.postType, ctx.sheetKey, ctx.env.digest);
    RowValues(content, category, tags, image, status, hash)
  }

  /**
   * What a row contributes before the store is consulted: its sanitised title, whether it passes
   * the title and content checks, and its computed values. None of these depends on the store.
   */
  datatype Prepared = Prepared(title: string, kept: bool, values: RowValues)

  function Prepare(ctx: Ctx, row: Row): (p: Prepared)
    ensures p.title == RowTitle(ctx, row)
    ensures p.kept <==> Kept(ctx, row)
    ensures p.kept ==> p.title != ""
    ensures p.values.content == RowContent(ctx, row)
    ensures p.values.category == ctx.wp.sanitizeTextField(Cell(row, ctx.columns, "category"))
    ensures p.values.tags == Cell(row, ctx.columns, "tags")
    ensures p.values.image == ctx.wp.escUrlRaw(Cell(row, ctx.columns, "featured_image"))
    ensures p.values.status == StatusOf(Cell(row, ctx.columns, "status"))
    ensures p.values.hash ==
      RowHash.BuildRowHash(ctx.settings.mode, ctx.settings.template, p.title, p.values.content,
                           p.values.category, p.values.tags, p.values.image, StatusName(p.values.status),
                           ctx.settings.postType, ctx.sheetKey, ctx.env.digest)
  {
    var title := RowTitle(ctx, row);
    Prepared(title, Kept(ctx, row), Values(ctx, row, title))
  }

  function PrepareAll(ctx: Ctx, rows: seq<Row>): (ps: seq<Prepared>)
    ensures |ps| == |rows|
    ensures forall i :: 0 <= i < |rows| ==> ps[i] == Prepare(ctx, rows[i])
  {
    seq(|rows|, i requires 0 <= i < |rows| => Prepare(ctx, rows[i]))
  }

  // ---------------------------------------------------------------------------
  // The post store
  // ---------------------------------------------------------------------------

  datatype StoredPost = StoredPost(id: nat, hash: string)

  /** Posts of the sheet's post type by title, and the last id handed out. */
  datatype Store = Store(posts: map<string, StoredPost>, lastId: nat)

  /**
   * `s2p_find_post_by_title`: nothing for a blank title or post type; otherwise the post with
   * the trimmed title, if it has a non-zero id.
   */
  function FindPostByTitle(store: Store, title: string, postType: string): (r: Option<StoredPost>)
    ensures r.Some? <==>
      Trim(title) != "" && Trim(postType) != "" && Trim(title) in store.posts &&
      store.posts[Trim(title)].id != 0
    ensures r.Some? ==> r.value == store.posts[Trim(title)]
  {
    var t := Trim(title);
    if t == "" || Trim(postType) == "" then None
    else if t in store.posts && store.posts[t].id != 0 then Some(store.posts[t])
    else None
  }

  // ---------------------------------------------------------------------------
  // Deciding one row
  // ---------------------------------------------------------------------------

  datatype Image = NoImage | ImageSet | ImageFailed

  datatype Outcome = Skipped | Unchanged | Updated(image: Image) | Created(image: Image)

  /** The featured-image step: skipped for an empty URL, failed for a blank one. */
  function AttachImage(env: Env, postId: nat, image: string): (r: Image)
    ensures r.NoImage? <==> image == ""
    ensures r.ImageSet? ==> Trim(image) != "" && env.imageOk(postId, Trim(image))
  {
    if image == "" then NoImage
    else if Trim(image) == "" then ImageFailed
    else if env.imageOk(postId, Trim(image)) then ImageSet
    else ImageFailed
  }

  /** The write a kept, changed row asks for: an update of the post found by title, or an insert. */
  function RowWrite(postType: string, p: Prepared, store: Store): Write {
    match FindPostByTitle(store, p.title, postType)
    case Some(post) => UpdatePost(post.id, p.title, p.values.content, p.values.status, postType)
    case None => InsertPost(p.title, p.values.content, p.values.status, postType)
  }

  /**
   * One pass of the `foreach ($data_rows as $row)` body for a prepared row: skipped when it
   * fails the title or content check; unchanged when a post with its title exists with a truthy
   * stored hash equal to the new one; otherwise update or insert, a failed write counting as
   * skipped; then the image step.
   */
  function SyncRow(env: Env, postType: string, p: Prepared, store: Store): (r: (Store, Outcome))
    ensures r.1.Unchanged? <==>
      p.kept &&
      var found := FindPostByTitle(store, p.title, postType);
      found.Some? && !PhpEmpty(found.value.hash) && found.value.hash == p.values.hash
    ensures !p.kept ==> r.1.Skipped?
    ensures r.1.Skipped? || r.1.Unchanged? ==> r.0 == store
    ensures p.kept && !r.1.Unchanged? ==> (r.1.Skipped? <==> !env.writeOk(RowWrite(postType, p, store)))
  {
    var title := p.title;
    var v := p.values;
    if !p.kept then (store, Skipped)
    else
      match FindPostByTitle(store, title, postType)
      case Some(post) =>
        if !PhpEmpty(post.hash) && post.hash == v.hash then (store, Unchanged)
        else if !env.writeOk(UpdatePost(post.id, title, v.content, v.status, postType)) then (store, Skipped)
        else
          var posts := (store.posts - {Trim(title)})[title := StoredPost(post.id, v.hash)];
          (Store(posts, store.lastId), Updated(AttachImage(env, post.id, v.image)))
      case None =>
        if !env.writeOk(InsertPost(title, v.content, v.status, postType)) then (store, Skipped)
        else
          var id := store.lastId + 1;
          (Store(store.posts[title := StoredPost(id, v.hash)], id), Created(AttachImage(env, id, v.image)))
  }

  /**
   * A created post gets the next id and is stored under the row's title; an updated one keeps
   * its id and moves from the trimmed title to the row's title; both carry the row's hash, and
   * the image step runs against the written post's id.
   */
  lemma SyncRowWrites(env: Env, postType: string, p: Prepared, store: Store)
    ensures var r := SyncRow(env, postType, p, store);
      && (r.1.Created? ==>
            FindPostByTitle(store, p.title, postType).None? &&
            r.0 == Store(store.posts[p.title := StoredPost(store.lastId + 1, p.values.hash)], store.lastId + 1) &&
            r.1.image == AttachImage(env, store.lastId + 1, p.values.image))
      && (r.1.Updated? ==>
            var found := FindPostByTitle(store, p.title, postType);
            found.Some? &&
            r.0 == Store((store.posts - {Trim(p.title)})[p.title := StoredPost(found.value.id, p.values.hash)],
                         store.lastId) &&
            r.1.image == AttachImage(env, found.value.id, p.values.image))
  {
  }

  // ---------------------------------------------------------------------------
  // The whole run
  // ---------------------------------------------------------------------------

  datatype Counts = Counts(created: nat, updated: nat, unchangedRows: nat, skipped: nat, imgSet: nat, imgFail: nat)

  function Total(c: Counts): nat {
    c.created + c.updated + c.unchangedRows + c.skipped
  }

  /** Images are attempted only for rows that were written. */
  predicate ImagesWithinWrites(c: Counts) {
    c.imgSet + c.imgFail <= c.created + c.updated
  }

  function Tally(c: Counts, o: Outcome): Counts {
    var img := if o.Updated? || o.Created? then o.image else NoImage;
    var c1 := match o
      case Skipped => c.(skipped := c.skipped + 1)
      case Unchanged => c.(unchangedRows := c.unchangedRows + 1)
      case Updated(_) => c.(updated := c.updated + 1)
      case Created(_) => c.(created := c.created + 1);
    match img
    case NoImage => c1
    case ImageSet => c1.(imgSet := c1.imgSet + 1)
    case ImageFailed => c1.(imgFail := c1.imgFail + 1)
  }

  /** Each outcome adds one to exactly one of the four row counters, and an image only to a write. */
  lemma TallyCounts(c: Counts, o: Outcome)
    ensures Total(Tally(c, o)) == Total(c) + 1
    ensures ImagesWithinWrites(c) ==> ImagesWithinWrites(Tally(c, o))
  {
  }

  /** The loop over all data rows, threading the store through the rows in order. */
  function SyncRows(env: Env, postType: string, ps: seq<Prepared>, store: Store): (r: (Store, Counts))
    ensures Total(r.1) == |ps|
    ensures ImagesWithinWrites(r.1)
    decreases |ps|
  {
    if |ps| == 0 then (store, Counts(0, 0, 0, 0, 0, 0))
    else
      var (store1, o) := SyncRow(env, postType, ps[0], store);
      var (store2, c) := SyncRows(env, postType, ps[1..], store1);
      TallyCounts(c, o);
      (store2, Tally(c, o))
  }

  // ---------------------------------------------------------------------------
  // Dry run of one row
  // ---------------------------------------------------------------------------

  /** `$idx` after `(int)`, raised to 1 and lowered to the number of data rows. */
  function ClampIndex(requested: int, max: nat): (idx: int)
    ensures max >= 1 ==> 1 <= idx <= max
    ensures 1 <= requested <= max ==> idx == requested
    ensures requested < 1 && max >= 1 ==> idx == 1
    ensures requested > max ==> idx == max
  {
    var idx := if requested < 1 then 1 else requested;
    if idx > max then max else idx
  }

  datatype Action = WouldCreate | WouldUpdate(id: nat) | WouldDoNothing(id: nat)

  datatype Preview =
    | EmptyTitle(sheetName: string, rowIndex: int, maxRows: nat)
    | Planned(sheetName: string, rowIndex: int, maxRows: nat, action: Action, title: string,
              status: Status, postType: string, category: string, tags: seq<string>,
              image: string, content: string)

  /** The action the preview reports for a prepared row. */
  function PreviewAction(postType: string, p: Prepared, store: Store): Action {
    match FindPostByTitle(store, p.title, postType)
    case None => WouldCreate
    case Some(post) =>
      if !PhpEmpty(post.hash) && post.hash == p.values.hash then WouldDoNothing(post.id) else WouldUpdate(post.id)
  }

  /** The report for the prepared row at 1-based index `idx` of `max` data rows. */
  function PreviewOf(sheetName: string, postType: string, idx: int, max: nat, p: Prepared, store: Store): (r: Preview)
    ensures r.rowIndex == idx && r.maxRows == max
    ensures r.EmptyTitle? <==> p.title == ""
    ensures r.Planned? ==> r.action == PreviewAction(postType, p, store) && r.title == p.title
    ensures r.sheetName == sheetName
    ensures r.Planned? ==>
      && r.status == p.values.status && r.postType == postType && r.category == p.values.category
      && r.tags == Tags.ParseTags(p.values.tags) && r.image == p.values.image
      && r.content == p.values.content
  {
    var v := p.values;
    if p.title == "" then EmptyTitle(sheetName, idx, max)
    else
      Planned(sheetName, idx, max, PreviewAction(postType, p, store), p.title,
              v.status, postType, v.category, Tags.ParseTags(v.tags), v.image, v.content)
  }

  /**
   * The dry-run branch over the sheet's prepared rows: the requested 1-based index is clamped
   * into range, and only an empty title is reported; the content check is not made.
   */
  function PreviewRow(sheetName: string, postType: string, ps: seq<Prepared>, requested: int, store: Store): (r: Preview)
    requires |ps| >= 1
    ensures 1 <= r.rowIndex <= |ps| && r.maxRows == |ps|
    ensures r.rowIndex == ClampIndex(requested, |ps|)
    ensures r.EmptyTitle? <==> ps[r.rowIndex - 1].title == ""
    ensures r.Planned? ==> r.action == PreviewAction(postType, ps[r.rowIndex - 1], store)
    ensures r.sheetName == sheetName
    ensures r.Planned? ==>
      var v := ps[r.rowIndex - 1].values;
      && r.title == ps[r.rowIndex - 1].title
      && r.status == v.status && r.postType == postType && r.category == v.category
      && r.tags == Tags.ParseTags(v.tags) && r.image == v.image && r.content == v.content
  {
    var idx := ClampIndex(requested, |ps|);
    PreviewOf(sheetName, postType, idx, |ps|, ps[idx - 1], store)
  }

  // ---------------------------------------------------------------------------
  // s2p_process_sheet
  // ---------------------------------------------------------------------------

  datatype SyncError =
    | LoadFailed(cause: LoadError)
    /** `simpleMessage` selects the Simple Mode wording, used exactly when the mode is `simple` */
    | MissingColumns(simpleMessage: bool)

  datatype Report = Report(sheetName: string, countRows: nat, counts: Counts)

  datatype SheetResult = Failed(error: SyncError) | DryRun(preview: Preview) | Synced(report: Report)

  /** `title` is required, and `content` too unless the mode is `developer`. */
  predicate HasRequiredColumns(m: HeaderMap, mode: string) {
    Lookup(m, "title").Some? && (Lookup(m, "content").Some? || mode == "developer")
  }

  /** The branch after the column check, over the prepared data rows: one preview or the full sync. */
  function RunPrepared(
    s: Settings, ps: seq<Prepared>, dryRun: bool, testRow: Option<int>, store: Store, env: Env
  ): (r: (SheetResult, Store))
    requires |ps| >= 1
    ensures !r.0.Failed?
    ensures r.0.DryRun? <==> dryRun && testRow.Some?
    ensures r.0.DryRun? ==> r.1 == store && r.0.preview.maxRows == |ps|
    ensures r.0.Synced? ==>
      && r.0.report.countRows == |ps|
      && Total(r.0.report.counts) == r.0.report.countRows
      && ImagesWithinWrites(r.0.report.counts)
    ensures r.0.DryRun? ==> r.0.preview == PreviewRow(s.name, s.postType, ps, testRow.value, store)
    ensures r.0.Synced? ==>
      r.0.report.sheetName == s.name && (r.1, r.0.report.counts) == SyncRows(env, s.postType, ps, store)
  {
    if dryRun && testRow.Some? then
      (DryRun(PreviewRow(s.name, s.postType, ps, testRow.value, store)), store)
    else
      var (store1, counts) := SyncRows(env, s.postType, ps, store);
      (Synced(Report(s.name, |ps|, counts)), store1)
  }

  /**
   * `s2p_process_sheet` once the sheet is loaded: the required-column check, then either the
   * preview of one row or the sync of every row, with the store afterwards.
   */
  function ProcessLoaded(
    sheetKey: string, s: Settings, loaded: Loaded, dryRun: bool, testRow: Option<int>,
    store: Store, wp: Wp, env: Env
  ): (r: (SheetResult, Store))
    requires |loaded.dataRows| >= 1
    ensures r.0.Failed? <==> !HasRequiredColumns(loaded.columns, s.mode)
    ensures r.0.Failed? ==> r.0.error == MissingColumns(s.mode == "simple") && r.1 == store
    ensures r.0.DryRun? ==> r.1 == store && r.0.preview.maxRows == |loaded.dataRows|
    ensures r.0.Synced? ==> r.0.report.countRows == |loaded.dataRows|
    ensures r.0.DryRun? <==> HasRequiredColumns(loaded.columns, s.mode) && dryRun && testRow.Some?
    ensures r.0.Synced? ==>
      Total(r.0.report.counts) == r.0.report.countRows && ImagesWithinWrites(r.0.report.counts)
    ensures var ps := PrepareAll(Ctx(sheetKey, s, loaded.columns, wp, env), loaded.dataRows);
      && (r.0.DryRun? ==> r.0.preview == PreviewRow(s.name, s.postType, ps, testRow.value, store))
      && (r.0.Synced? ==>
            r.0.report.sheetName == s.name && (r.1, r.0.report.counts) == SyncRows(env, s.postType, ps, store))
  {
    var m := loaded.columns;
    if !HasRequiredColumns(m, s.mode) then (Failed(MissingColumns(s.mode == "simple")), store)
    else RunPrepared(s, PrepareAll(Ctx(sheetKey, s, m, wp, env), loaded.dataRows), dryRun, testRow, store, env)
  }

  /** `s2p_process_sheet`: a sheet that cannot be loaded fails with the loading error. */
  function ProcessSheet(
    sheetKey: string, cfg: SheetConfig.RawSheet, dryRun: bool, testRow: Option<int>,
    store: Store, wp: Wp, env: Env
  ): (r: (SheetResult, Store))
    ensures !r.0.Synced? ==> r.1 == store
    ensures var loaded := LoadSheetData(ReadSettings(cfg).sheetUrl, wp);
      loaded.Failure? ==> r.0 == Failed(LoadFailed(loaded.error))
    ensures var s := ReadSettings(cfg);
      var loaded := LoadSheetData(s.sheetUrl, wp);
      loaded.Success? ==>
        var l := loaded.value;
        var ps := PrepareAll(Ctx(sheetKey, s, l.columns, wp, env), l.dataRows);
        && (r.0.Failed? <==> !HasRequiredColumns(l.columns, s.mode))
        && (r.0.Failed? ==> r.0.error == MissingColumns(s.mode == "simple"))
        && (r.0.DryRun? <==> HasRequiredColumns(l.columns, s.mode) && dryRun && testRow.Some?)
        && (r.0.DryRun? ==> r.0.preview == PreviewRow(s.name, s.postType, ps, testRow.value, store))
        && (r.0.Synced? ==>
              && r.0.report.countRows == |l.dataRows|
              && Total(r.0.report.counts) == r.0.report.countRows
              && r.0.report.sheetName == s.name
              && (r.1, r.0.report.counts) == SyncRows(env, s.postType, ps, store))
  {
    var s := ReadSettings(cfg);
    match LoadSheetData(s.sheetUrl, wp)
    case Failure(e) => (Failed(LoadFailed(e)), store)
    case Success(loaded) => ProcessLoaded(sheetKey, s, loaded, dryRun, testRow, store, wp, env)
  }

  // ---------------------------------------------------------------------------
  // Dry run against the real sync
  // ---------------------------------------------------------------------------

  /**
   * For a row the sync does not skip, and with writes succeeding, the preview announces what
   * the sync does: create, update the same post, or nothing.
   */
  lemma PreviewAgreesWithSync(env: Env, postType: string, p: Prepared, store: Store)
    requires p.kept
    requires forall w :: env.writeOk(w)
    ensures var a := PreviewAction(postType, p, store);
      var o := SyncRow(env, postType, p, store).1;
      (a.WouldCreate? <==> o.Created?) &&
      (a.WouldUpdate? <==> o.Updated?) &&
      (a.WouldDoNothing? <==> o.Unchanged?)
  {
  }

  /**
   * In any mode but developer, a titled row with a blank `content` cell is skipped by the sync
   * but still previewed with a planned action.
   */
  lemma PreviewIgnoresBlankContent(ctx: Ctx, row: Row, idx: int, max: nat, store: Store)
    requires ctx.settings.mode != "developer"
    requires RowTitle(ctx, row) != ""
    requires Trim(Cell(row, ctx.columns, "content")) == ""
    ensures var p := Prepare(ctx, row);
      PreviewOf(ctx.settings.name, ctx.settings.postType, idx, max, p, store).Planned? &&
      SyncRow(ctx.env, ctx.settings.postType, p, store).1.Skipped?
  {
  }

  // ---------------------------------------------------------------------------
  // A second run changes nothing
  // ---------------------------------------------------------------------------

  /** A kept row's post is in the store under its title with the row's current hash. */
  predicate Recorded(store: Store, p: Prepared) {
    p.kept ==>
      p.title in store.posts && store.posts[p.title].id != 0 && store.posts[p.title].hash == p.values.hash
  }

  /** A trimmed title, and for a kept row a non-empty title and a truthy hash. */
  predicate Settled(p: Prepared) {
    IsTrimmed(p.title) && (p.kept ==> p.title != "" && !PhpEmpty(p.values.hash))
  }

  /**
   * A prepared row is settled when every digest is truthy and the sanitiser leaves its title
   * trimmed.
   */
  lemma PreparedSettled(ctx: Ctx, row: Row)
    requires forall h :: !PhpEmpty(ctx.env.digest(h))
    requires IsTrimmed(RowTitle(ctx, row))
    ensures Settled(Prepare(ctx, row))
  {
    var title := RowTitle(ctx, row);
    var v := Values(ctx, row, title);
    assert exists h :: v.hash == ctx.env.digest(h);
  }

  /** The same posts, apart from the key `k`. */
  ghost predicate SameExcept(a: map<string, StoredPost>, b: map<string, StoredPost>, k: string) {
    forall t :: t != k ==> (t in a <==> t in b) && (t in a ==> a[t] == b[t])
  }

  /**
   * The conditions under which re-running a sync is expected to be a no-op: writes succeed,
   * hashes are truthy, the post type is not blank, titles are trimmed and the kept rows have
   * distinct titles.
   */
  ghost predicate Stable(env: Env, postType: string, ps: seq<Prepared>) {
    && (forall w :: env.writeOk(w))
    && Trim(postType) != ""
    && (forall i :: 0 <= i < |ps| ==> Settled(ps[i]))
    && (forall i, j :: 0 <= i < j < |ps| && ps[i].kept && ps[j].kept ==> ps[i].title != ps[j].title)
  }

  function KeptCount(ps: seq<Prepared>): (n: nat)
    ensures n <= |ps|
  {
    if |ps| == 0 then 0 else (if ps[0].kept then 1 else 0) + KeptCount(ps[1..])
  }

  /** A row's step touches no title but its own. */
  lemma SyncRowFrame(env: Env, postType: string, p: Prepared, store: Store)
    requires IsTrimmed(p.title)
    ensures SameExcept(SyncRow(env, postType, p, store).0.posts, store.posts, p.title)
  {
    SyncRowWrites(env, postType, p, store);
    TrimOfTrimmed(p.title);
  }

  /** After its step, a kept row is recorded, when writes succeed and its hash is truthy. */
  lemma SyncRowRecords(env: Env, postType: string, p: Prepared, store: Store)
    requires forall w :: env.writeOk(w)
    requires Trim(postType) != ""
    requires Settled(p)
    ensures Recorded(SyncRow(env, postType, p, store).0, p)
  {
    SyncRowWrites(env, postType, p, store);
    TrimOfTrimmed(p.title);
  }

  /** Over a store where it is recorded, a row's step leaves the store as it is. */
  lemma SyncRowQuiet(env: Env, postType: string, p: Prepared, store: Store)
    requires Trim(postType) != ""
    requires Settled(p)
    requires Recorded(store, p)
    ensures SyncRow(env, postType, p, store) == (store, if p.kept then Unchanged else Skipped)
  {
    TrimOfTrimmed(p.title);
  }

  /** A whole pass touches only the titles of the kept rows. */
  lemma {:induction false} SyncRowsFrame(env: Env, postType: string, ps: seq<Prepared>, store: Store, t: string)
    requires forall i :: 0 <= i < |ps| ==> IsTrimmed(ps[i].title)
    requires forall i :: 0 <= i < |ps| && ps[i].kept ==> ps[i].title != t
    ensures var after := SyncRows(env, postType, ps, store).0.posts;
      (t in after <==> t in store.posts) && (t in store.posts ==> after[t] == store.posts[t])
    decreases |ps|
  {
    if |ps| > 0 {
      var store1 := SyncRow(env, postType, ps[0], store).0;
      SyncRowFrame(env, postType, ps[0], store);
      if ps[0].kept {
        assert ps[0].title != t;
      }
      assert forall i :: 0 <= i < |ps[1..]| ==> ps[1..][i] == ps[i + 1];
      SyncRowsFrame(env, postType, ps[1..], store1, t);
    }
  }

  /** After a pass over rows with distinct titles, every kept row is recorded. */
  lemma {:induction false} SyncRowsRecords(env: Env, postType: string, ps: seq<Prepared>, store: Store)
    requires Stable(env, postType, ps)
    ensures forall i :: 0 <= i < |ps| ==> Recorded(SyncRows(env, postType, ps, store).0, ps[i])
    decreases |ps|
  {
    if |ps| > 0 {
      var store1 := SyncRow(env, postType, ps[0], store).0;
      var after := SyncRows(env, postType, ps, store).0;
      var rest := ps[1..];
      assert forall i :: 0 <= i < |rest| ==> rest[i] == ps[i + 1];
      assert after == SyncRows(env, postType, rest, store1).0;
      assert Stable(env, postType, rest);
      SyncRowsRecords(env, postType, rest, store1);
      SyncRowRecords(env, postType, ps[0], store);
      if ps[0].kept {
        SyncRowsFrame(env, postType, rest, store1, ps[0].title);
      }
      forall i | 0 <= i < |ps| ensures Recorded(after, ps[i]) {
        if i > 0 {
          assert ps[i] == rest[i - 1];
        }
      }
    }
  }

  /** Over a store where every kept row is recorded, a pass writes nothing. */
  lemma {:induction false} SyncRowsQuiet(env: Env, postType: string, ps: seq<Prepared>, store: Store)
    requires Trim(postType) != ""
    requires forall i :: 0 <= i < |ps| ==> Settled(ps[i])
    requires forall i :: 0 <= i < |ps| ==> Recorded(store, ps[i])
    ensures SyncRows(env, postType, ps, store) == (store, QuietCounts(ps))
    decreases |ps|
  {
    if |ps| > 0 {
      var rest := ps[1..];
      SyncRowQuiet(env, postType, ps[0], store);
      assert forall i :: 0 <= i < |rest| ==> rest[i] == ps[i + 1];
      SyncRowsQuiet(env, postType, rest, store);
      SyncRowsStep(env, postType, ps, store);
      TallyQuiet(ps);
    }
  }

  /** The counts of a pass that writes nothing: kept rows unchanged, the others skipped. */
  function QuietCounts(ps: seq<Prepared>): Counts {
    Counts(0, 0, KeptCount(ps), |ps| - KeptCount(ps), 0, 0)
  }

  lemma SyncRowsStep(env: Env, postType: string, ps: seq<Prepared>, store: Store)
    requires |ps| > 0
    ensures var (store1, o) := SyncRow(env, postType, ps[0], store);
      var (store2, c) := SyncRows(env, postType, ps[1..], store1);
      SyncRows(env, postType, ps, store) == (store2, Tally(c, o))
  {
  }

  lemma TallyQuiet(ps: seq<Prepared>)
    requires |ps| > 0
    ensures Tally(QuietCounts(ps[1..]), if ps[0].kept then Unchanged else Skipped) == QuietCounts(ps)
  {
    assert KeptCount(ps) == (if ps[0].kept then 1 else 0) + KeptCount(ps[1..]);
  }

  /**
   * Running the sync twice over the same prepared rows under the conditions of `Stable`: the
   * second run creates and updates nothing, leaves the store as it is, and counts every kept row
   * as unchanged and every other row as skipped.
   */
  lemma SecondSyncIsQuiet(env: Env, postType: string, ps: seq<Prepared>, store: Store)
    requires Stable(env, postType, ps)
    ensures var first := SyncRows(env, postType, ps, store).0;
      SyncRows(env, postType, ps, first) == (first, QuietCounts(ps))
  {
    SyncRowsRecords(env, postType, ps, store);
    SyncRowsQuiet(env, postType, ps, SyncRows(env, postType, ps, store).0);
  }

  /**
   * The same at the entry point: running `s2p_process_sheet` a second time, without a dry run,
   * over a sheet whose prepared rows meet `Stable`, leaves the store as the first run left it
   * and creates and updates nothing.
   */
  lemma SecondProcessIsQuiet(sheetKey: string, cfg: SheetConfig.RawSheet, store: Store, wp: Wp, env: Env)
    requires var s := ReadSettings(cfg);
      var loaded := LoadSheetData(s.sheetUrl, wp);
      loaded.Success? &&
      Stable(env, s.postType, PrepareAll(Ctx(sheetKey, s, loaded.value.columns, wp, env), loaded.value.dataRows))
    ensures var first := ProcessSheet(sheetKey, cfg, false, None, store, wp, env);
      var second := ProcessSheet(sheetKey, cfg, false, None, first.1, wp, env);
      && second.1 == first.1
      && (second.0.Synced? ==> second.0.report.counts.created == 0 && second.0.report.counts.updated == 0)
  {
    var s := ReadSettings(cfg);
    var l := LoadSheetData(s.sheetUrl, wp).value;
    var ps := PrepareAll(Ctx(sheetKey, s, l.columns, wp, env), l.dataRows);
    SecondSyncIsQuiet(env, s.postType, ps, store);
  }
}

/**
 The file handlers of src/controllers/fileController.js, on the `files`
 table only. Every handler sits behind the authentication gate
 (src/routes/file.js) and receives the admitted user id. The outcomes of the
 disk operations are boolean inputs, `path.extname` is a function parameter,
 and the `upload_date` the database stamps on insert is the clock input
 `now`. Rows are kept in insertion order, which is also the order a query
 without `ORDER BY` is taken to return them in.
 */
module FileController {
  import opened Options
  import opened Text
  import opened Validation
  import opened Http

  // ---------------------------------------------------------------------
  // The table

  /** `path.extname`: the extension of a file name, dot included. */
  type ExtName = string -> string

  /** What the upload middleware hands a handler as `req.file`; the bytes
      themselves are not modelled. */
  datatype Upload = Upload(originalName: string, mimeType: string, size: nat)

  datatype FileRow = FileRow(id: nat, name: string, extension: string, mimeType: string,
                             size: nat, userId: nat, uploadedAt: nat)

  /** The rows and the auto-increment counter of `files`. */
  datatype Files = Files(rows: seq<FileRow>, nextId: nat)

  /** Ids increase in insertion order and stay below the counter. */
  ghost predicate WellFormed(f: Files) {
    && (forall a, b :: 0 <= a < b < |f.rows| ==> f.rows[a].id < f.rows[b].id)
    && (forall a :: 0 <= a < |f.rows| ==> f.rows[a].id < f.nextId)
  }

  /** The columns the listing and info queries select: all but `user_id`. */
  datatype FileInfo = FileInfo(id: nat, name: string, extension: string, mimeType: string,
                               size: nat, uploadedAt: nat)

  function Public(r: FileRow): FileInfo {
    FileInfo(r.id, r.name, r.extension, r.mimeType, r.size, r.uploadedAt)
  }

  // ---------------------------------------------------------------------
  // Row filters

  /** The row conditions the handlers filter by: `user_id = ?`, and the rows a
      `DELETE ... WHERE id = ?` keeps. */
  datatype Where = OwnerIs(userId: nat) | IdIsNot(id: nat)

  predicate Holds(w: Where, r: FileRow) {
    match w
    case OwnerIs(u) => r.userId == u
    case IdIsNot(id) => r.id != id
  }

  /** The rows satisfying `w`, in table order. */
  function Keep(rows: seq<FileRow>, w: Where): (kept: seq<FileRow>)
    ensures |kept| <= |rows|
    ensures forall k :: 0 <= k < |kept| ==> Holds(w, kept[k])
  {
    if |rows| == 0 then []
    else (if Holds(w, rows[0]) then [rows[0]] else []) + Keep(rows[1..], w)
  }

  /** Filtering only drops rows: whatever it keeps comes from the table. */
  lemma {:induction false} KeptFromRows(rows: seq<FileRow>, w: Where, k: nat)
    requires k < |Keep(rows, w)|
    ensures Keep(rows, w)[k] in rows
    decreases |rows|
  {
    var head := if Holds(w, rows[0]) then [rows[0]] else [];
    if k >= |head| {
      KeptFromRows(rows[1..], w, k - |head|);
      assert Keep(rows, w)[k] == Keep(rows[1..], w)[k - |head|];
    }
  }

  /** Filtering distributes over concatenation, so it keeps the table order. */
  lemma {:induction false} KeepAppend(xs: seq<FileRow>, ys: seq<FileRow>, w: Where)
    ensures Keep(xs + ys, w) == Keep(xs, w) + Keep(ys, w)
    decreases |xs|
  {
    if |xs| == 0 {
      assert xs + ys == ys;
    } else {
      var zs := xs + ys;
      var head := if Holds(w, xs[0]) then [xs[0]] else [];
      assert zs[0] == xs[0];
      assert zs[1..] == xs[1..] + ys;
      KeepAppend(xs[1..], ys, w);
      assert Keep(zs, w) == head + Keep(zs[1..], w);
      assert Keep(xs, w) == head + Keep(xs[1..], w);
    }
  }

  /** Rows that all satisfy the condition are kept whole. */
  lemma {:induction false} KeepAll(rows: seq<FileRow>, w: Where)
    requires forall k :: 0 <= k < |rows| ==> Holds(w, rows[k])
    ensures Keep(rows, w) == rows
    decreases |rows|
  {
    if |rows| > 0 {
      KeepAll(rows[1..], w);
    }
  }

  /** A row that fails the condition adds nothing. */
  lemma KeepDropsOne(rows: seq<FileRow>, r: FileRow, w: Where)
    requires !Holds(w, r)
    ensures Keep(rows + [r], w) == Keep(rows, w)
  {
    KeepAppend(rows, [r], w);
    assert [r][1..] == [];
  }

  /** `SELECT ... FROM files WHERE user_id = ?`: the caller's rows. */
  function Owned(rows: seq<FileRow>, userId: nat): seq<FileRow> {
    Keep(rows, OwnerIs(userId))
  }

  /** The first row with this id owned by the caller, as the lookups
      `WHERE id = ? AND user_id = ?` find it. */
  function FindOwned(rows: seq<FileRow>, id: nat, userId: nat): (r: Option<nat>)
    ensures r.Some? ==> r.value < |rows| && rows[r.value].id == id && rows[r.value].userId == userId
    ensures r.None? <==> forall k :: 0 <= k < |rows| ==> !(rows[k].id == id && rows[k].userId == userId)
  {
    if |rows| == 0 then None
    else if rows[0].id == id && rows[0].userId == userId then Some(0)
    else match FindOwned(rows[1..], id, userId)
      case None => None
      case Some(k) => Some(k + 1)
  }

  // ---------------------------------------------------------------------
  // Replies

  datatype Pagination = Pagination(currentPage: nat, totalPages: nat, totalItems: nat, itemsPerPage: nat)

  datatype FileReply =
    | Uploaded(fileId: nat, filename: string, size: nat, mimeType: string)
    | Listed(items: seq<FileInfo>, pagination: Pagination)
    | Info(info: FileInfo)
    | Sent(filename: string, mimeType: string, path: string)  // path below UPLOAD_PATH
    | Updated(filename: string, size: nat, mimeType: string)
    | Deleted
    | Failed(failure: Failure)

  datatype FileStep = FileStep(reply: FileReply, files: Files)

  // ---------------------------------------------------------------------
  // uploadFile

  /** `uploadFile`. Without a file, 400. Otherwise the row is inserted under
      the next id; when the disk write then fails the row is deleted again
      (the counter stays advanced) and the answer is 500. */
  function UploadFile(f: Files, userId: nat, file: Option<Upload>, extname: ExtName, now: nat, writeOk: bool): (s: FileStep)
    requires WellFormed(f)
    ensures WellFormed(s.files)
    ensures file.None? ==> s == FileStep(Failed(NoFile), f)
    ensures file.Some? ==> s.files.nextId == f.nextId + 1
    ensures file.Some? && !writeOk ==> s.reply == Failed(ServerError) && s.files.rows == f.rows
    ensures file.Some? && writeOk ==>
      var u := file.value;
      && s.reply == Uploaded(f.nextId, u.originalName, u.size, u.mimeType)
      && (forall a :: 0 <= a < |f.rows| ==> f.rows[a].id != f.nextId)
      && s.files.rows == f.rows + [FileRow(f.nextId, u.originalName, extname(u.originalName), u.mimeType, u.size, userId, now)]
  {
    match file
    case None => FileStep(Failed(NoFile), f)
    case Some(u) =>
      var row := FileRow(f.nextId, u.originalName, extname(u.originalName), u.mimeType, u.size, userId, now);
      var inserted := Files(f.rows + [row], f.nextId + 1);
      if writeOk then FileStep(Uploaded(f.nextId, u.originalName, u.size, u.mimeType), inserted)
      else
        KeepAll(f.rows, IdIsNot(f.nextId));
        KeepDropsOne(f.rows, row, IdIsNot(f.nextId));
        FileStep(Failed(ServerError), inserted.(rows := Keep(inserted.rows, IdIsNot(f.nextId))))
  }

  // ---------------------------------------------------------------------
  // getFilesList

  const DefaultListSize: nat := 10
  const DefaultPage: nat := 1

  /** `parseInt(q) || d` followed by `if (v < 1) v = d`: NaN and 0 fall back
      through `||`, negative values through the clamp. */
  function Effective(q: Option<string>, d: nat): (v: nat)
    requires d >= 1
    ensures v >= 1
    ensures v == d || (q.Some? && ParseInt(q.value) == Some(v as int))
    ensures q.Some? && ParseInt(q.value).Some? && ParseInt(q.value).value >= 1 ==> v == ParseInt(q.value).value
  {
    var parsed := if q.None? then None else ParseInt(q.value);
    var orDefault: int := if parsed.None? || parsed.value == 0 then d else parsed.value;
    if orDefault < 1 then d else orDefault
  }

  /** `Math.ceil(count / size)`; the division is exact for the counts a
      table holds. */
  function TotalPages(count: nat, size: nat): (pages: nat)
    requires size >= 1
    ensures pages == 0 <==> count == 0
    ensures count > 0 ==> (pages - 1) * size < count <= pages * size
  {
    var pages := (count + size - 1) / size;
    CeilBounds(count, size, pages, (count + size - 1) % size);
    pages
  }

  lemma CeilBounds(count: nat, size: nat, q: nat, r: nat)
    requires size >= 1
    requires count + size - 1 == q * size + r && r < size
    ensures q == 0 <==> count == 0
    ensures count > 0 ==> (q - 1) * size < count <= q * size
  {
    assert (q - 1) * size == q * size - size;
  }

  /** `LIMIT size OFFSET offset` over the caller's rows. */
  function Page(owned: seq<FileRow>, offset: nat, size: nat): (page: seq<FileRow>)
    ensures |page| <= size
    ensures offset >= |owned| ==> page == []
    ensures offset < |owned| ==> |page| == if offset + size <= |owned| then size else |owned| - offset
    ensures forall k :: 0 <= k < |page| ==> offset + k < |owned| && page[k] == owned[offset + k]
  {
    if offset >= |owned| then []
    else owned[offset..if offset + size <= |owned| then offset + size else |owned|]
  }

  /** The listing for numeric page settings: the page's rows of the caller
      (without `user_id`) and the pagination block. */
  function ListPage(f: Files, userId: nat, size: nat, page: nat): (r: FileReply)
    requires size >= 1 && page >= 1
    ensures r.Listed?
    ensures var p := r.pagination;
      && p.currentPage == page && p.itemsPerPage == size
      && p.totalItems == |Owned(f.rows, userId)|
      && (p.totalPages == 0 <==> p.totalItems == 0)
      && (p.totalItems > 0 ==> (p.totalPages - 1) * size < p.totalItems <= p.totalPages * size)
    ensures var count, offset := |Owned(f.rows, userId)|, (page - 1) * size;
      |r.items| == if offset >= count then 0 else if offset + size <= count then size else count - offset
    ensures Slice(r.items, Owned(f.rows, userId), (page - 1) * size)
  {
    var owned := Owned(f.rows, userId);
    var rows := Page(owned, (page - 1) * size, size);
    Listed(seq(|rows|, k requires 0 <= k < |rows| => Public(rows[k])),
           Pagination(page, TotalPages(|owned|, size), |owned|, size))
  }

  /** `getFilesList` with the raw `list_size` and `page` query values: the
      listing of the effective settings. */
  function ListFiles(f: Files, userId: nat, listSize: Option<string>, page: Option<string>): (r: FileReply)
    ensures r == ListPage(f, userId, Effective(listSize, DefaultListSize), Effective(page, DefaultPage))
    ensures r.Listed?
    ensures r.pagination.itemsPerPage == Effective(listSize, DefaultListSize)
    ensures r.pagination.currentPage == Effective(page, DefaultPage)
    ensures r.pagination.totalItems == |Owned(f.rows, userId)|
    ensures r.pagination.totalPages == TotalPages(r.pagination.totalItems, r.pagination.itemsPerPage)
    ensures |r.items| <= r.pagination.itemsPerPage
    ensures Slice(r.items, Owned(f.rows, userId), (r.pagination.currentPage - 1) * r.pagination.itemsPerPage)
  {
    var size := Effective(listSize, DefaultListSize);
    var current := Effective(page, DefaultPage);
    var count := |Owned(f.rows, userId)|;
    var r := ListPage(f, userId, size, current);
    assert r.pagination == Pagination(current, TotalPages(count, size), count, size);
    r
  }

  /** `items` are the public views of `owned` from position `offset` on. */
  predicate Slice(items: seq<FileInfo>, owned: seq<FileRow>, offset: int) {
    0 <= offset && forall k :: 0 <= k < |items| ==> offset + k < |owned| && items[k] == Public(owned[offset + k])
  }

  /** Every listed item is the public view of one of the caller's rows. */
  lemma ListedAreOwned(f: Files, userId: nat, size: nat, page: nat, k: nat)
    requires size >= 1 && page >= 1
    requires k < |ListPage(f, userId, size, page).items|
    ensures exists a ::
      && 0 <= a < |f.rows| && f.rows[a].userId == userId
      && ListPage(f, userId, size, page).items[k] == Public(f.rows[a])
  {
    var owned := Owned(f.rows, userId);
    var i := (page - 1) * size + k;
    KeptFromRows(f.rows, OwnerIs(userId), i);
    var a :| 0 <= a < |f.rows| && f.rows[a] == owned[i];
    assert ListPage(f, userId, size, page).items[k] == Public(f.rows[a]);
  }

  /** Item `k` of the caller's rows is listed on page `k / size + 1`, at
      position `k % size`, and that page is within `totalPages`. */
  lemma ItemOnItsPage(f: Files, userId: nat, size: nat, k: nat)
    requires size >= 1
    requires k < |Owned(f.rows, userId)|
    ensures var r := ListPage(f, userId, size, k / size + 1);
      && k / size + 1 <= r.pagination.totalPages
      && k % size < |r.items|
      && r.items[k % size] == Public(Owned(f.rows, userId)[k])
  {
    var owned := Owned(f.rows, userId);
    var p := k / size + 1;
    var offset := (p - 1) * size;
    DivMod(k, size);
    var tp := TotalPages(|owned|, size);
    PageBelow(p, tp, size, k);
    var rows := Page(owned, offset, size);
    assert k % size < |rows|;
    assert rows[k % size] == owned[k];
  }

  /** A position before the last item lies on a page up to `totalPages`. */
  lemma PageBelow(p: nat, tp: nat, size: nat, k: nat)
    requires size >= 1 && p >= 1
    requires (p - 1) * size <= k < tp * size
    ensures p <= tp
  {
    if p > tp {
      MulMonotone(tp, p - 1, size);
    }
  }

  lemma MulMonotone(a: nat, b: nat, c: nat)
    requires a <= b
    ensures a * c <= b * c
  {
  }

  /** Euclidean division of a position by the page size. */
  lemma DivMod(k: nat, size: nat)
    requires size >= 1
    ensures (k / size + 1 - 1) * size + k % size == k
    ensures k % size < size
  {
  }

  /** Pages `1 .. totalPages` are never empty; pages after them always are. */
  lemma PagesInRange(f: Files, userId: nat, size: nat, page: nat)
    requires size >= 1 && page >= 1
    ensures var r := ListPage(f, userId, size, page);
      |r.items| > 0 <==> page <= r.pagination.totalPages
  {
    var count := |Owned(f.rows, userId)|;
    var tp := TotalPages(count, size);
    if page <= tp {
      MulMonotone(page - 1, tp - 1, size);
    } else {
      MulMonotone(tp, page - 1, size);
    }
  }

  /** A query value that passes the pagination rule is used exactly as
      given; without the rule a bad value silently falls back to the default. */
  lemma ValidatedQueryHonored(q: string, d: nat)
    requires d >= 1
    requires IsPositiveInt(q)
    ensures Effective(Some(q), d) == IntStringValue(q)
  {
    ParseIntOfIntString(q);
  }

  /** The decimal text of a positive number selects exactly that number. */
  lemma NumberQueryHonored(n: nat, d: nat)
    requires n >= 1 && d >= 1
    ensures Effective(Some(NatToString(n)), d) == n
  {
    ParseIntOfNatToString(n);
  }

  // ---------------------------------------------------------------------
  // getFileInfo and downloadFile

  /** `getFileInfo`: the caller's row with that id, without `user_id`, or 404. */
  function GetFileInfo(f: Files, userId: nat, id: nat): (r: FileReply)
    ensures r.Info? || r == Failed(FileNotFound)
    ensures r.Info? <==> exists a :: 0 <= a < |f.rows| && f.rows[a].id == id && f.rows[a].userId == userId
    ensures r.Info? ==>
      && r.info.id == id
      && (exists a :: 0 <= a < |f.rows| && f.rows[a].userId == userId && r.info == Public(f.rows[a]))
  {
    match FindOwned(f.rows, id, userId)
    case None => Failed(FileNotFound)
    case Some(a) => Info(Public(f.rows[a]))
  }

  /** The `Content-Disposition` value the download sets. */
  function Disposition(name: string): string {
    "attachment; filename=\"" + name + "\""
  }

  /** The fixed parts of the disposition are valid, so it is a valid header
      value iff the file name is. */
  lemma DispositionValid(name: string)
    ensures HeaderValue(Disposition(name)) <==> HeaderValue(name)
  {
    var prefix, quote := "attachment; filename=\"", "\"";
    assert HeaderValue(prefix) && HeaderValue(quote);
    HeaderValueConcat(prefix, name);
    HeaderValueConcat(prefix + name, quote);
  }

  /** Both headers of a download are accepted by `setHeader`. */
  predicate HeadersOk(row: FileRow) {
    HeaderValue(row.mimeType) && HeaderValue(Disposition(row.name))
  }

  /** `downloadFile`: 404 unless the caller owns a row with that id; then
      the MIME type and the name are set as headers, and the stored file
      `<id><extension>` is sent. A name or MIME type `setHeader` refuses, or
      a failed read, ends in the `catch` with 500. */
  function DownloadFile(f: Files, userId: nat, id: nat, readOk: bool): (r: FileReply)
    ensures r.Sent? || r == Failed(FileNotFound) || r == Failed(ServerError)
    ensures r == Failed(FileNotFound) <==> forall a :: 0 <= a < |f.rows| ==> !(f.rows[a].id == id && f.rows[a].userId == userId)
    ensures readOk
         && (exists a :: 0 <= a < |f.rows| && f.rows[a].id == id && f.rows[a].userId == userId)
         && (forall a :: 0 <= a < |f.rows| && f.rows[a].id == id && f.rows[a].userId == userId ==>
               HeaderValue(f.rows[a].name) && HeaderValue(f.rows[a].mimeType))
         ==> r.Sent?
    ensures (exists a :: 0 <= a < |f.rows| && f.rows[a].id == id && f.rows[a].userId == userId)
         && (forall a :: 0 <= a < |f.rows| && f.rows[a].id == id && f.rows[a].userId == userId ==>
               !(HeaderValue(f.rows[a].name) && HeaderValue(f.rows[a].mimeType)))
         ==> r == Failed(ServerError)
    ensures r.Sent? ==>
      && readOk
      && (exists a ::
            && 0 <= a < |f.rows| && f.rows[a].id == id && f.rows[a].userId == userId
            && HeaderValue(f.rows[a].name) && HeaderValue(f.rows[a].mimeType)
            && r == Sent(f.rows[a].name, f.rows[a].mimeType, NatToString(id) + f.rows[a].extension))
  {
    match FindOwned(f.rows, id, userId)
    case None => Failed(FileNotFound)
    case Some(a) =>
      var row := f.rows[a];
      DispositionValid(row.name);
      if !HeadersOk(row) then Failed(ServerError)
      else if readOk then Sent(row.name, row.mimeType, NatToString(id) + row.extension)
      else Failed(ServerError)
  }

  /** In a well-formed table the download of an owned row is sent iff the
      file is readable and its name and MIME type are valid header values. */
  lemma DownloadSentIff(f: Files, userId: nat, a: nat, readOk: bool)
    requires WellFormed(f)
    requires a < |f.rows| && f.rows[a].userId == userId
    ensures DownloadFile(f, userId, f.rows[a].id, readOk).Sent?
        <==> readOk && HeaderValue(f.rows[a].name) && HeaderValue(f.rows[a].mimeType)
  {
    forall b | 0 <= b < |f.rows| && b != a ensures f.rows[b].id != f.rows[a].id {
      if b < a {
        assert f.rows[b].id < f.rows[a].id;
      } else {
        assert f.rows[a].id < f.rows[b].id;
      }
    }
  }

  /** A download and an info request for the same id agree: with a readable
      file the download is sent iff the info is found with a name and MIME
      type `setHeader` accepts, and it carries the name, MIME type and
      extension the info reports. */
  lemma DownloadMatchesInfo(f: Files, userId: nat, id: nat)
    ensures var d, i := DownloadFile(f, userId, id, true), GetFileInfo(f, userId, id);
      && (d.Sent? <==> i.Info? && HeaderValue(i.info.name) && HeaderValue(i.info.mimeType))
      && (d.Sent? ==> d == Sent(i.info.name, i.info.mimeType, NatToString(i.info.id) + i.info.extension))
  {
    match FindOwned(f.rows, id, userId)
    case None =>
    case Some(a) => DispositionValid(f.rows[a].name);
  }

  // ---------------------------------------------------------------------
  // updateFile

  /** `UPDATE files SET name = ?, extension = ?, mime_type = ?, size = ? WHERE id = ?`. */
  function UpdateById(rows: seq<FileRow>, id: nat, u: Upload, extension: string): (r: seq<FileRow>)
    ensures |r| == |rows|
  {
    seq(|rows|, k requires 0 <= k < |rows| =>
      if rows[k].id == id then rows[k].(name := u.originalName, extension := extension, mimeType := u.mimeType, size := u.size)
      else rows[k])
  }

  /** `updateFile`. Without a file, 400 (checked before the lookup); then 404
      unless the caller owns a row with that id. The old file's removal may
      fail silently. The row takes the new name, extension, MIME type and
      size; when writing the new file fails the answer is 500 but the row
      stays updated. */
  function UpdateFile(f: Files, userId: nat, id: nat, file: Option<Upload>, extname: ExtName, writeOk: bool): (s: FileStep)
    requires WellFormed(f)
    ensures WellFormed(s.files)
    ensures file.None? ==> s == FileStep(Failed(NoFile), f)
    ensures file.Some? && (forall a :: 0 <= a < |f.rows| ==> !(f.rows[a].id == id && f.rows[a].userId == userId)) ==>
      s == FileStep(Failed(FileNotFound), f)
    ensures s.reply.Updated? || s.reply == Failed(ServerError) ==>
      && file.Some? && s.files.nextId == f.nextId
      && (exists a ::
            && 0 <= a < |f.rows| && f.rows[a].id == id && f.rows[a].userId == userId
            && s.files.rows == f.rows[a := f.rows[a].(name := file.value.originalName,
                                                      extension := extname(file.value.originalName),
                                                      mimeType := file.value.mimeType, size := file.value.size)])
    ensures s.reply.Updated? <==> file.Some? && writeOk && (exists a :: 0 <= a < |f.rows| && f.rows[a].id == id && f.rows[a].userId == userId)
    ensures s.reply.Updated? ==> s.reply == Updated(file.value.originalName, file.value.size, file.value.mimeType)
    ensures file.Some? && !writeOk && (exists a :: 0 <= a < |f.rows| && f.rows[a].id == id && f.rows[a].userId == userId) ==>
      s.reply == Failed(ServerError)
  {
    match file
    case None => FileStep(Failed(NoFile), f)
    case Some(u) =>
      match FindOwned(f.rows, id, userId)
      case None => FileStep(Failed(FileNotFound), f)
      case Some(a) =>
        var extension := extname(u.originalName);
        var rows := UpdateById(f.rows, id, u, extension);
        UpdateOnlyRow(f, a, u, extension);
        var updated := Files(rows, f.nextId);
        if writeOk then FileStep(Updated(u.originalName, u.size, u.mimeType), updated)
        else FileStep(Failed(ServerError), updated)
  }

  /** In a well-formed table the update by id touches row `a` alone and keeps
      its id, owner and upload date. */
  lemma UpdateOnlyRow(f: Files, a: nat, u: Upload, extension: string)
    requires WellFormed(f)
    requires a < |f.rows|
    ensures var r := UpdateById(f.rows, f.rows[a].id, u, extension);
      && r == f.rows[a := f.rows[a].(name := u.originalName, extension := extension, mimeType := u.mimeType, size := u.size)]
      && WellFormed(Files(r, f.nextId))
  {
    var r := UpdateById(f.rows, f.rows[a].id, u, extension);
    forall b | 0 <= b < |f.rows| && b != a ensures r[b] == f.rows[b] {
      if b < a {
        assert f.rows[b].id < f.rows[a].id;
      } else {
        assert f.rows[a].id < f.rows[b].id;
      }
    }
  }

  // ---------------------------------------------------------------------
  // deleteFile

  /** `deleteFile`: 404 unless the caller owns a row with that id; when
      removing the stored file fails, 500 and the row stays; otherwise
      `DELETE FROM files WHERE id = ?`. */
  function DeleteFile(f: Files, userId: nat, id: nat, unlinkOk: bool): (s: FileStep)
    requires WellFormed(f)
    ensures WellFormed(s.files)
    ensures s.reply.Deleted? || s == FileStep(Failed(FileNotFound), f) || s == FileStep(Failed(ServerError), f)
    ensures s.reply == Failed(FileNotFound) <==> forall a :: 0 <= a < |f.rows| ==> !(f.rows[a].id == id && f.rows[a].userId == userId)
    ensures s.reply.Deleted? <==> unlinkOk && (exists a :: 0 <= a < |f.rows| && f.rows[a].id == id && f.rows[a].userId == userId)
    ensures s.reply.Deleted? ==>
      && s.files.nextId == f.nextId
      && (exists a ::
            && 0 <= a < |f.rows| && f.rows[a].id == id && f.rows[a].userId == userId
            && s.files.rows == f.rows[..a] + f.rows[a + 1..])
  {
    match FindOwned(f.rows, id, userId)
    case None => FileStep(Failed(FileNotFound), f)
    case Some(a) =>
      if !unlinkOk then FileStep(Failed(ServerError), f)
      else
        DeleteOnlyRow(f, a);
        FileStep(Deleted, f.(rows := Keep(f.rows, IdIsNot(id))))
  }

  /** In a well-formed table the delete by id removes row `a` alone and keeps
      the others in order. */
  lemma DeleteOnlyRow(f: Files, a: nat)
    requires WellFormed(f)
    requires a < |f.rows|
    ensures Keep(f.rows, IdIsNot(f.rows[a].id)) == f.rows[..a] + f.rows[a + 1..]
    ensures WellFormed(Files(f.rows[..a] + f.rows[a + 1..], f.nextId))
  {
    var w := IdIsNot(f.rows[a].id);
    var pre, post := f.rows[..a], f.rows[a + 1..];
    assert f.rows == pre + [f.rows[a]] + post;
    forall k | 0 <= k < |pre| ensures Holds(w, pre[k]) {
      assert pre[k] == f.rows[k];
    }
    forall k | 0 <= k < |post| ensures Holds(w, post[k]) {
      assert post[k] == f.rows[a + 1 + k];
    }
    KeepAll(pre, w);
    KeepAll(post, w);
    KeepAppend(pre + [f.rows[a]], post, w);
    KeepDropsOne(pre, f.rows[a], w);
    RemoveWellFormed(f, a);
  }

  /** Removing one row keeps the ids increasing and below the counter. */
  lemma RemoveWellFormed(f: Files, a: nat)
    requires WellFormed(f)
    requires a < |f.rows|
    ensures WellFormed(Files(f.rows[..a] + f.rows[a + 1..], f.nextId))
  {
    var r := f.rows[..a] + f.rows[a + 1..];
    forall i | 0 <= i < |r| ensures r[i] == f.rows[if i < a then i else i + 1] {
    }
  }
}

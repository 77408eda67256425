/**
  The application object: the list of pending input rows the user edits
  before registering them, the ids ticked for deletion in the listing, and
  the colour band shown next to each expiry date. Widget calls are gone:
  button presses and checkbox states are parameters, and "today" is passed
  in.
 */
module MainApp {
  import opened Wrappers
  import opened Seqs
  import opened Dates
  import opened ImageUtils
  import opened DbUtils

  /** The expiry kind a new pending row starts with. */
  const CONSUMPTION_LIMIT: string := "消費期限"

  /** A pending row. `id` is the widget key (a UUID4 text in the source). */
  datatype InputData = InputData(id: string, image: Option<Size>, itemName: string, expiryType: string, expiryDate: Date, enable: bool)

  /** `InputData()`: the row "入力欄追加" adds. */
  function NewInputData(id: string, today: Date): InputData
  {
    InputData(id, None, "", CONSUMPTION_LIMIT, today, true)
  }

  function IsEnabled(): InputData -> bool
  {
    (row: InputData) => row.enable
  }

  // ---- rows from a detection response ----

  /** One entry of `data_dict["data"]`: a box, a label, and the optional type and date (JSON null is None). */
  datatype Detection = Detection(coordinate: Box, name: string, kind: Option<string>, date: Option<string>)

  /**
    Why make_input_data raises: crop refuses the box, square cannot handle
    the cut-out (no pixels to divide by, or a side resized to none),
    strptime refuses the date.
   */
  datatype InputError = CropRefused | CannotSquare | BadDate(text: string)

  /** Python truthiness of an optional text: neither null nor empty. */
  predicate Given(text: Option<string>)
  {
    text.Some? && text.value != ""
  }

  /** The pending row built from one detection, or the error that stops make_input_data. */
  function RowFromDetection(det: Detection, id: string, today: Date): (r: Result<InputData, InputError>)
    requires ValidDate(today)
    ensures r.Ok? <==> (CropSize(det.coordinate).Some? && SquareFits(CropSize(det.coordinate).value, TARGET_LENGTH)
      && (Given(det.date) ==> ParseIso(det.date.value).Some?))
    ensures r.Ok? ==> r.value.id == id && r.value.itemName == det.name && r.value.enable
    ensures r.Ok? ==> r.value.image == Some(Size(TARGET_LENGTH, TARGET_LENGTH))
    ensures r.Ok? ==> r.value.expiryType == if Given(det.kind) then det.kind.value else CONSUMPTION_LIMIT
    ensures r.Ok? ==> ValidDate(r.value.expiryDate)
    ensures r.Ok? && !Given(det.date) ==> r.value.expiryDate == today
    ensures r.Ok? && Given(det.date) ==> IsoFormat(r.value.expiryDate) == det.date.value
  {
    match CropSize(det.coordinate)
    case None => Err(CropRefused)
    case Some(cropped) =>
      match SquareLayout(cropped, TARGET_LENGTH)
      case None => Err(CannotSquare)
      case Some(layout) =>
        var expiryType := if Given(det.kind) then det.kind.value else CONSUMPTION_LIMIT;
        if Given(det.date) then
          match ParseIso(det.date.value)
          case None => Err(BadDate(det.date.value))
          case Some(d) =>
            FormatParseIso(det.date.value);
            Ok(InputData(id, Some(layout.canvas), det.name, expiryType, d, true))
        else
          Ok(InputData(id, Some(layout.canvas), det.name, expiryType, today, true))
  }

  // ---- colour bands of the listing ----

  datatype Urgency = Expired | DueToday | DueSoon | NotUrgent

  /** The band of colored_write for `remaining` days: exactly one applies. */
  function UrgencyOf(remaining: int): (u: Urgency)
    ensures u == Expired <==> remaining < 0
    ensures u == DueToday <==> remaining == 0
    ensures u == DueSoon <==> 1 <= remaining <= 3
    ensures u == NotUrgent <==> remaining > 3
  {
    if remaining < 0 then Expired
    else if remaining == 0 then DueToday
    else if remaining <= 3 then DueSoon
    else NotUrgent
  }

  function Severity(u: Urgency): nat
  {
    match u
    case Expired => 3
    case DueToday => 2
    case DueSoon => 1
    case NotUrgent => 0
  }

  /** The sooner the expiry, the more severe the band. */
  lemma UrgencyMonotone(a: int, b: int)
    requires a <= b
    ensures Severity(UrgencyOf(a)) >= Severity(UrgencyOf(b))
  {
  }

  /** What colored_write renders: background and text colours around the date text. */
  datatype Highlight = Highlight(background: string, textColor: string, text: string)

  function Colors(u: Urgency): (string, string)
  {
    match u
    case Expired => ("#FF6666", "#000000")
    case DueToday => ("#FFA500", "#000000")
    case DueSoon => ("#FFFF66", "#000000")
    case NotUrgent => ("", "")
  }

  /**
    colored_write for a stored expiry text: None where strptime raises;
    otherwise the colours of the band of the days left, around the date
    text, which is the stored text itself.
   */
  function ColoredWrite(expiryDate: string, today: Date): (r: Option<Highlight>)
    requires ValidDate(today)
    ensures r.None? <==> ParseIso(expiryDate).None?
    ensures r.Some? ==> r.value.text == expiryDate
    ensures r.Some? ==>
      (r.value.background, r.value.textColor) == Colors(UrgencyOf(DaysBetween(today, ParseIso(expiryDate).value)))
  {
    match ParseIso(expiryDate)
    case None => None
    case Some(d) =>
      FormatParseIso(expiryDate);
      var colors := Colors(UrgencyOf(DaysBetween(today, d)));
      Some(Highlight(colors.0, colors.1, IsoFormat(d)))
  }

  /**
    In a listing ordered by expiry text whose texts are ISO dates (as
    register stores them), the bands never get more severe further down.
   */
  lemma ListingUrgencyDescends(listed: seq<Product>, today: Date, i: nat, j: nat)
    requires ValidDate(today) && SortedByDate(listed)
    requires i < j < |listed|
    requires ParseIso(listed[i].expiryDate).Some? && ParseIso(listed[j].expiryDate).Some?
    ensures Severity(UrgencyOf(DaysBetween(today, ParseIso(listed[i].expiryDate).value)))
      >= Severity(UrgencyOf(DaysBetween(today, ParseIso(listed[j].expiryDate).value)))
  {
    var a, b := ParseIso(listed[i].expiryDate).value, ParseIso(listed[j].expiryDate).value;
    FormatParseIso(listed[i].expiryDate);
    FormatParseIso(listed[j].expiryDate);
    IsoFormatOrder(a, b);
    OrdinalOrder(a, b);
    UrgencyMonotone(DaysBetween(today, a), DaysBetween(today, b));
  }

  // ---- what register writes ----

  /** The product row register inserts for `row` under the id `id`. */
  function ProductOf(row: InputData, userName: string, id: nat): (p: Product)
    requires ValidDate(row.expiryDate)
  {
    Product(id, userName, row.itemName, row.expiryType, IsoFormat(row.expiryDate))
  }

  /** The product rows register inserts for the first `count` pending rows, with consecutive ids from `firstId`. */
  function Stored(pending: seq<InputData>, count: nat, userName: string, firstId: nat): (rows: seq<Product>)
    requires count <= |pending|
    requires forall row :: row in pending ==> ValidDate(row.expiryDate)
  {
    if count == 0 then []
    else
      assert pending[count - 1] in pending;
      Stored(pending, count - 1, userName, firstId) + [ProductOf(pending[count - 1], userName, firstId + count - 1)]
  }

  /** Row k of what register inserts is pending row k under the id `firstId + k`, with its date as ISO text. */
  lemma {:induction false} StoredAt(pending: seq<InputData>, count: nat, userName: string, firstId: nat, k: nat)
    requires count <= |pending|
    requires forall row :: row in pending ==> ValidDate(row.expiryDate)
    requires k < count
    ensures |Stored(pending, count, userName, firstId)| == count
    ensures pending[k] in pending
    ensures Stored(pending, count, userName, firstId)[k] == ProductOf(pending[k], userName, firstId + k)
  {
    var prefix := Stored(pending, count - 1, userName, firstId);
    assert pending[count - 1] in pending && pending[k] in pending;
    var last := ProductOf(pending[count - 1], userName, firstId + count - 1);
    assert Stored(pending, count, userName, firstId) == prefix + [last];
    StoredLength(pending, count - 1, userName, firstId);
    if k < count - 1 {
      StoredAt(pending, count - 1, userName, firstId, k);
      assert (prefix + [last])[k] == prefix[k];
    } else {
      assert (prefix + [last])[k] == last;
    }
  }

  lemma {:induction false} StoredLength(pending: seq<InputData>, count: nat, userName: string, firstId: nat)
    requires count <= |pending|
    requires forall row :: row in pending ==> ValidDate(row.expiryDate)
    ensures |Stored(pending, count, userName, firstId)| == count
  {
    if count > 0 {
      StoredLength(pending, count - 1, userName, firstId);
    }
  }

  /** The thumbnail register writes for `row` stored under `id`: one file when the row has an image. */
  function SavedImage(row: InputData, id: nat): set<nat>
  {
    if row.image.Some? then {id} else {}
  }

  /** The ids under which register saves a thumbnail for the first `count` pending rows, numbered from `firstId`. */
  function ImageIds(pending: seq<InputData>, count: nat, firstId: nat): (ids: set<nat>)
    requires count <= |pending|
  {
    if count == 0 then {}
    else ImageIds(pending, count - 1, firstId) + SavedImage(pending[count - 1], firstId + count - 1)
  }

  /** An id gets a thumbnail exactly when the pending row it was issued for carries an image. */
  lemma {:induction false} ImageIdsMembers(pending: seq<InputData>, count: nat, firstId: nat, x: nat)
    requires count <= |pending|
    ensures x in ImageIds(pending, count, firstId) <==> firstId <= x < firstId + count && pending[x - firstId].image.Some?
  {
    if count > 0 {
      ImageIdsMembers(pending, count - 1, firstId, x);
    }
  }

  /** What register stores reads back, in the listing, as the pending row's own date. */
  lemma StoredDatesReadBack(pending: seq<InputData>, userName: string, firstId: nat, k: nat)
    requires forall row :: row in pending ==> ValidDate(row.expiryDate)
    requires k < |pending|
    ensures |Stored(pending, |pending|, userName, firstId)| == |pending|
    ensures ParseIso(Stored(pending, |pending|, userName, firstId)[k].expiryDate) == Some(pending[k].expiryDate)
  {
    StoredAt(pending, |pending|, userName, firstId, k);
    assert pending[k] in pending;
    ParseIsoFormat(pending[k].expiryDate);
  }

  /** Every stored expiry text is one colored_write can read. */
  ghost predicate StoredDatesParse(rows: seq<Product>)
  {
    forall p :: p in rows ==> ParseIso(p.expiryDate).Some?
  }

  /** The rows register stores carry readable dates, so the table stays readable. */
  lemma StoredDatesParseAfterRegister(rows: seq<Product>, pending: seq<InputData>, userName: string, firstId: nat)
    requires StoredDatesParse(rows)
    requires forall row :: row in pending ==> ValidDate(row.expiryDate)
    ensures StoredDatesParse(rows + Stored(pending, |pending|, userName, firstId))
  {
    var added := Stored(pending, |pending|, userName, firstId);
    StoredLength(pending, |pending|, userName, firstId);
    forall p | p in rows + added ensures ParseIso(p.expiryDate).Some? {
      if p !in rows {
        var k :| 0 <= k < |added| && added[k] == p;
        StoredDatesReadBack(pending, userName, firstId, k);
      }
    }
  }

  /** Deleting rows keeps the table readable. */
  lemma StoredDatesParseAfterDelete(rows: seq<Product>, ids: set<nat>)
    requires StoredDatesParse(rows)
    ensures StoredDatesParse(WithoutIds(rows, ids))
  {
  }

  /**
    In a table whose dates are readable, colored_write succeeds on every row
    of every user's listing: the listing never stops half-way.
   */
  lemma ListedDatesAreShown(rows: seq<Product>, userName: string, today: Date)
    requires ValidDate(today) && StoredDatesParse(rows)
    ensures forall p :: p in SelectByUser(rows, userName) ==> ColoredWrite(p.expiryDate, today).Some?
  {
    var r := SelectByUser(rows, userName);
    forall p | p in r ensures ColoredWrite(p.expiryDate, today).Some? {
      assert multiset(r)[p] > 0;
      assert multiset(rows)[p] > 0;
    }
  }

  function IdsOf(rows: seq<Product>): (ids: seq<nat>)
    ensures |ids| == |rows| && forall k :: 0 <= k < |rows| ==> ids[k] == rows[k].id
  {
    seq(|rows|, k requires 0 <= k < |rows| => rows[k].id)
  }

  /** The ids a list holds, as a set. */
  function IdSet(ids: seq<nat>): set<nat>
  {
    set id | id in ids
  }

  function IdIn(ids: set<nat>): Product -> bool
  {
    (p: Product) => p.id in ids
  }

  /** What one more pass of register's loop adds to the table, after the rows `before` it. */
  lemma {:induction false} StoredStep(before: seq<Product>, pending: seq<InputData>, userName: string, firstId: nat, i: nat)
    requires forall row :: row in pending ==> ValidDate(row.expiryDate)
    requires i < |pending|
    ensures pending[i] in pending
    ensures before + Stored(pending, i + 1, userName, firstId)
      == (before + Stored(pending, i, userName, firstId)) + [ProductOf(pending[i], userName, firstId + i)]
  {
  }

  /** What one more pass of register's loop adds to the saved images, besides those `before` it. */
  lemma {:induction false} ImageIdsStep(before: set<nat>, pending: seq<InputData>, firstId: nat, i: nat)
    requires i < |pending|
    ensures before + ImageIds(pending, i + 1, firstId)
      == (before + ImageIds(pending, i, firstId)) + SavedImage(pending[i], firstId + i)
  {
  }

  lemma {:induction false} IdSetStep(ids: seq<nat>, i: nat)
    requires i < |ids|
    ensures IdSet(ids[..i + 1]) == IdSet(ids[..i]) + {ids[i]}
  {
    assert ids[..i + 1] == ids[..i] + [ids[i]];
  }

  /** The ids the listing's loop collects from the first `count` listed rows: those whose box is ticked, in order. */
  function TickedIds(listed: seq<Product>, count: nat, ticked: set<nat>): (ids: seq<nat>)
    requires count <= |listed|
  {
    if count == 0 then []
    else TickedIds(listed, count - 1, ticked) + (if listed[count - 1].id in ticked then [listed[count - 1].id] else [])
  }

  /** The collected ids are the ids of the ticked rows, in listing order. */
  lemma {:induction false} TickedIdsAreFiltered(listed: seq<Product>, count: nat, ticked: set<nat>)
    requires count <= |listed|
    ensures TickedIds(listed, count, ticked) == IdsOf(Filter(listed[..count], IdIn(ticked)))
  {
    if count > 0 {
      TickedIdsAreFiltered(listed, count - 1, ticked);
      assert listed[..count] == listed[..count - 1] + [listed[count - 1]];
      FilterConcat(listed[..count - 1], [listed[count - 1]], IdIn(ticked));
    }
  }

  /** The application state kept across reruns of the page. */
  class App {
    const db: DatabaseManager
    const userDb: UserManager
    /** The pending rows (input_data). */
    var inputData: seq<InputData>
    /** The ids whose delete box was ticked in the last listing (delete_item_id). */
    var deleteItemId: seq<nat>
    /** The selected user name. */
    var user: string

    ghost predicate Valid()
      reads this`inputData, db, userDb
    {
      db.Valid() && db.hasTable && userDb.Valid() && userDb.hasTable && StoredDatesParse(db.rows) &&
      forall row :: row in inputData ==> ValidDate(row.expiryDate)
    }

    /** Creates both tables (seeding "guest"), with no pending rows and "guest" selected. */
    constructor (db: DatabaseManager, userDb: UserManager)
      requires db.Valid() && userDb.Valid() && StoredDatesParse(db.rows)
      modifies db`hasTable, userDb`hasTable, userDb`rows
      ensures Valid() && this.db == db && this.userDb == userDb
      ensures inputData == [] && deleteItemId == [] && user == "guest"
      ensures db.rows == old(db.rows)
      ensures userDb.rows == if old(userDb.rows) == [] then [UserRow(1, "guest")] else old(userDb.rows)
    {
      this.db := db;
      this.userDb := userDb;
      inputData := [];
      deleteItemId := [];
      user := "guest";
      new;
      db.Create();
      userDb.Create(true);
    }

    /**
      make_input_data: one pending row per detection, in order, each with
      its cut-out as a 150 x 150 thumbnail; the first detection that fails
      stops the whole call with its error.
     */
    method MakeInputData(photo: Size, detections: seq<Detection>, ids: seq<string>, today: Date)
      returns (r: Result<seq<InputData>, InputError>)
      requires |ids| == |detections| && ValidDate(today)
      ensures r.Ok? <==> forall k :: 0 <= k < |detections| ==> RowFromDetection(detections[k], ids[k], today).Ok?
      ensures r.Ok? ==> |r.value| == |detections|
      ensures r.Ok? ==> forall k :: 0 <= k < |detections| ==> r.value[k] == RowFromDetection(detections[k], ids[k], today).value
      ensures r.Err? ==> exists k :: (0 <= k < |detections|
        && (forall m :: 0 <= m < k ==> RowFromDetection(detections[m], ids[m], today).Ok?)
        && RowFromDetection(detections[k], ids[k], today) == Err(r.error))
    {
      var items: seq<InputData> := [];
      var i := 0;
      while i < |detections|
        invariant 0 <= i <= |detections| && |items| == i
        invariant forall k :: 0 <= k < i ==> RowFromDetection(detections[k], ids[k], today) == Ok(items[k])
      {
        var row := MakeRow(photo, detections[i], ids[i], today);
        if row.Err? {
          return Err(row.error);
        }
        items := items + [row.value];
        i := i + 1;
      }
      r := Ok(items);
    }

    /**
      One pass of make_input_data's loop: cut the box out of the photo,
      square the cut-out to a thumbnail, then take the type and the date.
     */
    method MakeRow(photo: Size, det: Detection, id: string, today: Date) returns (r: Result<InputData, InputError>)
      requires ValidDate(today)
      ensures r == RowFromDetection(det, id, today)
    {
      var img := new ImageProcessor(photo);
      var ok := img.Crop(det.coordinate);
      if !ok {
        return Err(CropRefused);
      }
      ok := img.Square();
      if !ok {
        return Err(CannotSquare);
      }
      var expiryType := if Given(det.kind) then det.kind.value else CONSUMPTION_LIMIT;
      var expiryDate := today;
      if Given(det.date) {
        var parsed := ParseIso(det.date.value);
        if parsed.None? {
          return Err(BadDate(det.date.value));
        }
        expiryDate := parsed.value;
      }
      r := Ok(InputData(id, Some(img.image), det.name, expiryType, expiryDate, true));
    }

    /** "入力欄追加": one default row at the end; the existing rows stay as they are. */
    method AddRow(id: string, today: Date)
      requires Valid() && ValidDate(today)
      modifies this`inputData
      ensures Valid()
      ensures |inputData| == |old(inputData)| + 1 && inputData[..|old(inputData)|] == old(inputData)
      ensures var row := inputData[|old(inputData)|];
        row.id == id && row.image == None && row.itemName == "" && row.expiryType == CONSUMPTION_LIMIT
        && row.expiryDate == today && row.enable
    {
      inputData := inputData + [NewInputData(id, today)];
    }

    /** The "削除" checkbox of pending row `i`: a ticked box disables the row. */
    method SetDeleteCheckbox(i: nat, checked: bool)
      requires Valid() && i < |inputData|
      modifies this`inputData
      ensures Valid()
      ensures inputData == old(inputData)[i := old(inputData)[i].(enable := !checked)]
    {
      inputData := inputData[i := inputData[i].(enable := !checked)];
    }

    /** "削除実行" on the form: keep exactly the enabled rows, in their order. */
    method RemoveDisabled()
      requires Valid()
      modifies this`inputData
      ensures Valid()
      ensures inputData == Filter(old(inputData), IsEnabled())
    {
      inputData := Filter(inputData, IsEnabled());
    }

    /**
      register: when "登録" is pressed, insert one product per pending row,
      in order, under the selected user, write the thumbnail of every row
      that has one under its new id, and empty the pending list.
     */
    method Register(pressed: bool)
      requires Valid()
      modifies this`inputData, db`rows, db`nextId, db`issued, db`images
      ensures Valid()
      ensures !pressed ==> inputData == old(inputData) && db.rows == old(db.rows)
      ensures !pressed ==> db.nextId == old(db.nextId) && db.images == old(db.images)
      ensures pressed ==> inputData == []
      ensures pressed ==> db.rows == old(db.rows) + Stored(old(inputData), |old(inputData)|, user, old(db.nextId))
      ensures pressed ==> db.nextId == old(db.nextId) + |old(inputData)|
      ensures pressed ==> db.images == old(db.images) + ImageIds(old(inputData), |old(inputData)|, old(db.nextId))
    {
      if pressed {
        StoreAll(inputData);
        inputData := [];
      }
    }

    /** Register's progress through `pending`: the first `count` rows are inserted and their thumbnails saved. */
    ghost predicate StoredUpTo(pending: seq<InputData>, count: nat, rows0: seq<Product>, images0: set<nat>, next0: nat)
      reads this`user, db
    {
      count <= |pending| && (forall row :: row in pending ==> ValidDate(row.expiryDate)) &&
      db.Valid() && db.hasTable && db.nextId == next0 + count &&
      db.rows == rows0 + Stored(pending, count, user, next0) &&
      db.images == images0 + ImageIds(pending, count, next0)
    }

    /** One pass of register's loop: insert pending row `i` under the selected user and save its thumbnail, if any. */
    method StoreRow(pending: seq<InputData>, i: nat, ghost rows0: seq<Product>, ghost images0: set<nat>, ghost next0: nat)
      requires i < |pending| && StoredUpTo(pending, i, rows0, images0, next0)
      modifies db`rows, db`nextId, db`issued, db`images
      ensures StoredUpTo(pending, i + 1, rows0, images0, next0)
    {
      StoredStep(rows0, pending, user, next0, i);
      ImageIdsStep(images0, pending, next0, i);
      var row := pending[i];
      var newId := db.Insert(user, row.itemName, row.expiryType, IsoFormat(row.expiryDate));
      ghost var before := db.images;
      if row.image.Some? {
        db.images := db.images + {newId};
      } else {
        assert before + SavedImage(row, newId) == before;
      }
      assert db.images == before + SavedImage(row, newId);
    }

    /** The loop of register: one insert, and one thumbnail if the row has an image, per pending row. */
    method StoreAll(pending: seq<InputData>)
      requires db.Valid() && db.hasTable && StoredDatesParse(db.rows)
      requires forall row :: row in pending ==> ValidDate(row.expiryDate)
      modifies db`rows, db`nextId, db`issued, db`images
      ensures db.Valid() && db.hasTable && StoredDatesParse(db.rows)
      ensures db.rows == old(db.rows) + Stored(pending, |pending|, user, old(db.nextId))
      ensures db.nextId == old(db.nextId) + |pending|
      ensures db.images == old(db.images) + ImageIds(pending, |pending|, old(db.nextId))
    {
      ghost var rows0, images0, next0 := db.rows, db.images, db.nextId;
      assert StoredUpTo(pending, 0, rows0, images0, next0);
      var i := 0;
      while i < |pending|
        invariant i <= |pending| && StoredUpTo(pending, i, rows0, images0, next0)
      {
        StoreRow(pending, i, rows0, images0, next0);
        i := i + 1;
      }
      StoredDatesParseAfterRegister(rows0, pending, user, next0);
    }

    /** The checkbox column of the listing: the id of every row whose box is ticked, in listing order. */
    method CollectTicked(listed: seq<Product>, ticked: set<nat>) returns (selected: seq<nat>)
      ensures selected == IdsOf(Filter(listed, IdIn(ticked)))
    {
      selected := [];
      var i := 0;
      while i < |listed|
        invariant 0 <= i <= |listed|
        invariant selected == TickedIds(listed, i, ticked)
      {
        if listed[i].id in ticked {
          selected := selected + [listed[i].id];
        }
        i := i + 1;
      }
      TickedIdsAreFiltered(listed, |listed|, ticked);
      assert listed[..|listed|] == listed;
    }

    /** The delete branch of the listing: delete each selected id in turn, its row and its thumbnail. */
    method DeleteSelected(ids: seq<nat>)
      requires Valid()
      modifies db`rows, db`images
      ensures Valid()
      ensures db.rows == WithoutIds(old(db.rows), IdSet(ids))
      ensures db.images == old(db.images) - IdSet(ids)
    {
      ghost var rows0, images0 := db.rows, db.images;
      FilterKeepsAll(rows0, IdNotIn({}));
      assert IdSet(ids[..0]) == {};
      var i := 0;
      while i < |ids|
        invariant 0 <= i <= |ids|
        invariant db.Valid() && db.hasTable
        invariant db.rows == WithoutIds(rows0, IdSet(ids[..i]))
        invariant db.images == images0 - IdSet(ids[..i])
      {
        DeleteOneMore(rows0, IdSet(ids[..i]), ids[i]);
        IdSetStep(ids, i);
        db.Delete(ids[i]);
        i := i + 1;
      }
      assert ids[..i] == ids;
      StoredDatesParseAfterDelete(rows0, IdSet(ids));
    }

    /**
      The listing: when its "削除実行" is pressed, delete every ticked id
      (rows and thumbnails); then reset the selection and list the user's
      products, collecting afresh the ids whose box is ticked (`ticked`).
      The colour band of every listed row can be computed, so the listing
      runs to its end.
     */
    method Display(pressed: bool, ticked: set<nat>, today: Date) returns (listed: seq<Product>)
      requires Valid() && ValidDate(today)
      modifies this`deleteItemId, db`rows, db`images
      ensures Valid()
      ensures db.rows == if pressed then WithoutIds(old(db.rows), IdSet(old(deleteItemId))) else old(db.rows)
      ensures db.images == if pressed then old(db.images) - IdSet(old(deleteItemId)) else old(db.images)
      ensures listed == db.FetchAllProducts(user)
      ensures forall p :: p in listed ==> ColoredWrite(p.expiryDate, today).Some?
      ensures deleteItemId == IdsOf(Filter(listed, IdIn(ticked)))
    {
      if pressed {
        DeleteSelected(deleteItemId);
      }
      var selected;
      listed, selected := ListProducts(ticked, today);
      // the old selection is dropped and replaced by what the listing collects
      deleteItemId := selected;
    }

    /**
      The listing loop of display: the user's products in order, each shown
      with its colour band, and the ids whose box is ticked. It changes
      nothing.
     */
    method ListProducts(ticked: set<nat>, today: Date) returns (listed: seq<Product>, selected: seq<nat>)
      requires Valid() && ValidDate(today)
      ensures listed == db.FetchAllProducts(user)
      ensures forall p :: p in listed ==> ColoredWrite(p.expiryDate, today).Some?
      ensures selected == IdsOf(Filter(listed, IdIn(ticked)))
    {
      listed := db.FetchAllProducts(user);
      ListedDatesAreShown(db.rows, user, today);
      selected := CollectTicked(listed, ticked);
    }
  }
}

# Food expiry tracker: a Dafny model of its bookkeeping

The application photographs food, gets boxes, labels and expiry dates for
the items from a detection server, lets the user edit the resulting
pending rows, registers them in an SQLite `product` table with a
thumbnail per item, and lists a user's products by expiry date with a
colour band showing how urgent each one is. This project models the
bookkeeping behind that, leaving out the Streamlit widgets:

- `wrappers.dfy`: `Option` and `Result`.
- `seqs.dfy`: order-preserving filtering. The `DELETE ... WHERE` and
  `SELECT ... WHERE` statements and the list comprehension at
  app/main.py:166 are instances of it.
- `collation.dfy`: SQLite's BINARY text order, used by
  `ORDER BY expiry_date`.
- `dates.dfy`: `datetime.date`. It covers validity, the day ordinal that
  date subtraction uses, and the `YYYY-MM-DD` text that the sqlite3
  module stores and `strptime` reads back. It proves that formatting and
  parsing round-trip both ways, and that the text order of ISO dates is
  their order in time.
- `image_utils.dfy`: the MIME type of an upload and the geometry of
  `crop` and `square`. It models sizes and offsets, not pixels.
  `ImageProcessor` is a class whose `image` field the two methods replace.
- `db_utils.dfy`: the `product` table. It is a class with the rows, the
  AUTOINCREMENT counter, a ghost set of every id ever issued, and the set
  of ids that have an `{id}.png` file. The `users` table is a second
  class holding names with SQLite's implicit rowid.
- `main.dfy`: the `App` object. It holds the pending `InputData` rows and
  the ids ticked for deletion. It builds rows from a detection response,
  adds and removes pending rows, registers them, deletes the ticked
  products, and classifies expiry dates into colour bands.

Button presses and checkbox states are method parameters. The current
date is a parameter too, and so are the UUID keys of new rows.

## Model

Definitions that only compute (`CropSize`, `WithoutId`, `WithoutName`,
`NextRowid`, `NewInputData`, `Colors`, `IsoFormat`, `Ordinal`,
`DaysBetween`, `TextLe`) have no row of their own: the lemmas and methods
in the table that mention them state what they mean.

| member | source | states |
|---|---|---|
| Collation.TextLeReflexive | app/db_utils.py:86 | Every text sorts no later than itself |
| Collation.TextLeTotal | app/db_utils.py:86 | Any two expiry texts are comparable, so `ORDER BY expiry_date` is a total order |
| Collation.TextLeTransitive | app/db_utils.py:86 | The text order of `ORDER BY expiry_date` is transitive |
| Collation.TextLeAntisymmetric | app/db_utils.py:86 | Two texts each sorting no later than the other are equal |
| Seqs.Filter | app/main.py:166 | The filtered list holds exactly the kept elements, each as often as in the input |
| Seqs.FilterConcat | app/main.py:166 | Filtering distributes over concatenation, so the kept rows keep their relative order |
| Seqs.FilterPairwise | app/db_utils.py:192 | A filtered list is a subsequence: any relation between earlier and later elements survives |
| Dates.ParseIso | app/main.py:212 | A text that parses yields a date the calendar has |
| Dates.OrdinalOrder | app/main.py:213 | Chronological order of valid dates is exactly the order of their day ordinals |
| Dates.DigitsOrder | app/db_utils.py:86 | Zero-padded numerals of one width sort as text exactly as the numbers do |
| Dates.ParseIsoFormat | app/main.py:212 | Parsing the ISO text of a valid date gives that date back |
| Dates.FormatParseIso | app/main.py:212 | Every text that parses is the ISO text of the date it parses to |
| Dates.IsoFormatOrder | app/db_utils.py:86 | Two stored ISO dates sort as text if and only if they are in chronological order |
| ImageUtils.ContentType | app/image_utils.py:22-33 | The result is always one of the three MIME types |
| ImageUtils.ContentTypeByExtension | app/image_utils.py:28-33 | Suffix matching equals a table lookup of the text after the last dot: png gives PNG, jpg or jpeg gives JPEG, anything else the generic type |
| ImageUtils.ContentTypeIsCaseSensitive | app/image_utils.py:28-33 | ".PNG" and ".JPG" get the generic type, while ".png" and ".jpeg" are recognised |
| ImageUtils.CropWithinBounds | app/image_utils.py:78 | A box inside the source crops to exactly the box's size, no larger than the source |
| ImageUtils.SquareLayout | app/image_utils.py:87-104 | Fails exactly when `SquareFits` does not hold: the longer side is zero (division by zero), or a side would be resized to zero pixels while the size changes. A 0 x length or length x 0 image is already its own scaled size and passes through. Otherwise the canvas is length x length, the longer side (the height on a tie) scales to length, both scaled sides are at most length and at least 1 unless the image passes through unchanged, and each offset centres its side to within one pixel |
| ImageUtils.ScaledWithin | app/image_utils.py:96-97 | A scaled side never exceeds length, equals it for the longer side, and is zero exactly when side x length is below the longer side |
| ImageUtils.ThinStripIsRefused | app/image_utils.py:96-98 | A 1000x3 strip would be resized to 150x0, so square refuses it |
| ImageUtils.EdgeSliverPassesThrough | app/image_utils.py:90-104 | A 0x150 image keeps its size and is centred at offset (75, 0) on the 150x150 canvas |
| ImageUtils.SmallImagesFit | app/image_utils.py:87-98 | Every image with both sides between 1 and length can be squared |
| ImageUtils.SquareKeepsAspect | app/image_utils.py:90-97 | Each scaled side is the exact proportional length rounded down |
| ImageUtils.SquareSourceHasNoOffset | app/image_utils.py:90-104 | A square source fills the whole canvas with zero offsets |
| ImageUtils.FiftyPixelCropScalesThreeTimes | app/image_utils.py:78-104 | A 50x50 crop becomes a 150x150 image at offset (0, 0) |
| ImageUtils.ImageProcessor.constructor | app/image_utils.py:56-63 | The target length is 150 and the image is the given one |
| ImageUtils.ImageProcessor.Crop | app/image_utils.py:65-79 | On success the image becomes the box's size; on a box the library refuses it stays unchanged |
| ImageUtils.ImageProcessor.Square | app/image_utils.py:81-110 | Succeeds exactly when `SquareFits` holds for the image, which then becomes length x length; on failure the image is unchanged |
| DbUtils.InsertByDate | app/db_utils.py:86 | Inserting into a date-sorted list keeps it sorted and adds exactly that row |
| DbUtils.SortByDate | app/db_utils.py:86 | The result is sorted by expiry text and is a permutation of the input |
| DbUtils.SelectByUser | app/db_utils.py:86 | Sorted by expiry text; holds each row of the user exactly as often as stored, and no other row |
| DbUtils.DeleteIdempotent | app/db_utils.py:100 | Deleting an id twice equals deleting it once |
| DbUtils.DeleteRemovesOnlyThatRow | app/db_utils.py:100 | With unique ids, deleting a row's id cuts out that row and keeps every other row in place |
| DbUtils.DeleteAbsentId | app/db_utils.py:100 | Deleting an id no row holds changes nothing |
| DbUtils.DeleteOneMore | app/main.py:230-231 | Deleting the ids one after another removes exactly the rows whose id is in the set |
| DbUtils.DeletePreservesUniqueIds | app/db_utils.py:100 | Deleting keeps ids unique |
| DbUtils.InsertedRowIsSelected | app/db_utils.py:66-90 | After an insert, fetching the row's user returns the row with the fields it was inserted with |
| DbUtils.DeletedRowIsNotSelected | app/db_utils.py:74-107 | After deleting an id, no user's listing holds a row with that id |
| DbUtils.DatabaseManager.constructor | app/db_utils.py:13-20 | A database with no table, no rows and no image files, whose first AUTOINCREMENT id will be 1 |
| DbUtils.DatabaseManager.Create | app/db_utils.py:35-51 | The table exists afterwards; an existing table keeps its rows, counter and images (create is idempotent) |
| DbUtils.DatabaseManager.Insert | app/db_utils.py:53-72 | Appends exactly one row with the given fields; the returned id was never issued before, even to a deleted row |
| DbUtils.DatabaseManager.FetchAllProducts | app/db_utils.py:74-90 | Needs the table, as the query raises without it. Sorted by expiry text; holds the user's rows exactly as often as stored, and no other row |
| DbUtils.DatabaseManager.Delete | app/db_utils.py:92-107 | Needs the table, as the statement raises without it before any file is touched. Removes the rows with that id and the `{id}.png` file; every other row and file stays |
| DbUtils.DeleteNameRemovesAll | app/db_utils.py:192 | No row with the name survives, every other row does, and deletion distributes over concatenation (relative order kept) |
| DbUtils.DeleteNameKeepsRowidOrder | app/db_utils.py:192 | The surviving rows keep increasing rowids |
| DbUtils.UserManager.constructor | app/db_utils.py:110-117 | A users table that does not exist yet |
| DbUtils.UserManager.GetUsers | app/db_utils.py:151-164 | Needs the table. The names of all rows, in storage order |
| DbUtils.UserManager.Register | app/db_utils.py:166-182 | Appends one row even for a name already present; the rowid is larger than every existing one |
| DbUtils.UserManager.Create | app/db_utils.py:132-148 | Adds exactly one "guest" row with rowid 1 if and only if make_init_user holds and the table was empty; otherwise the rows stay |
| DbUtils.UserManager.Delete | app/db_utils.py:184-194 | Needs the table. Exactly the rows with other names remain |
| DbUtils.MilkScenario | app/db_utils.py:53-107 | On a new database, inserting Milk for guest gives it id 1 and makes it guest's only listed row; deleting its id empties the listing |
| DbUtils.SingleRowSelected | app/db_utils.py:86 | Any one-row table whose row belongs to the user is listed as itself |
| MainApp.RowFromDetection | app/main.py:96-119 | Succeeds exactly when the crop is accepted, the cut-out satisfies `SquareFits`, and any given date is in zero-padded `YYYY-MM-DD` form and exists. The row keeps the label, gets a 150x150 thumbnail and is enabled. A missing or empty type becomes 消費期限, otherwise the type is copied. A missing or empty date becomes today, otherwise the date is the one whose ISO text was given |
| MainApp.UrgencyOf | app/main.py:215-222 | Exactly one band applies: expired below 0, due today at 0, due soon from 1 to 3, not urgent above 3 |
| MainApp.UrgencyMonotone | app/main.py:213-222 | Fewer remaining days never give a less severe band |
| MainApp.ColoredWrite | app/main.py:206-225 | Fails exactly when the text is not a zero-padded `YYYY-MM-DD` date that exists; otherwise shows the stored text in the colours of the band of the remaining days (#FF6666, #FFA500, #FFFF66 on #000000, or none) |
| MainApp.ListingUrgencyDescends | app/main.py:237-254 | Down a listing ordered by expiry text, the bands never get more severe |
| MainApp.StoredAt | app/main.py:195-197 | The k-th inserted product is pending row k under the k-th new id, with its date as ISO text |
| MainApp.ImageIdsMembers | app/main.py:199-201 | A new id gets a thumbnail exactly when the pending row it was issued for has an image |
| MainApp.StoredDatesReadBack | app/main.py:197 | The stored date text of each registered row parses back to the pending row's date |
| MainApp.StoredDatesParseAfterRegister | app/main.py:197 | If every stored expiry text is readable, it stays readable after register appends the pending rows |
| MainApp.StoredDatesParseAfterDelete | app/main.py:229-231 | Deleting rows keeps every stored expiry text readable |
| MainApp.ListedDatesAreShown | app/main.py:237-254 | If every stored expiry text is readable, colored_write succeeds on every row of every user's listing, so the listing loop never stops early |
| MainApp.TickedIdsAreFiltered | app/main.py:256-258 | The collected ids are the ids of the ticked rows, in listing order |
| MainApp.App.constructor | app/main.py:54-83 | Both tables exist, the product rows are untouched, "guest" is seeded into an empty users table, nothing is pending, and the user is "guest". Requires every stored expiry text to be readable |
| MainApp.App.MakeInputData | app/main.py:85-120 | Succeeds when every detection yields a row, and then gives one row per detection in order. Otherwise it fails with the error of the first detection that fails |
| MainApp.App.MakeRow | app/main.py:97-119 | Crop, square, type and date in sequence give exactly the row or the error `RowFromDetection` describes |
| MainApp.App.AddRow | app/main.py:160-161 | Appends one row with the defaults of lines 34-39 (no image, empty name, 消費期限, enabled) and leaves the existing rows unchanged |
| MainApp.App.SetDeleteCheckbox | app/main.py:177-178 | Only row i changes, and only its enable flag, which becomes the negation of the box |
| MainApp.App.RemoveDisabled | app/main.py:164-166 | Exactly the enabled rows remain, in their order |
| MainApp.App.Register | app/main.py:191-204 | When pressed, inserts one product per pending row, in list order, under the current user with consecutive fresh ids, saves a thumbnail for each row with an image, and empties the list. When not pressed, nothing changes |
| MainApp.App.StoreRow | app/main.py:195-201 | One more pending row is inserted and its thumbnail saved |
| MainApp.App.StoreAll | app/main.py:195-201 | All pending rows are inserted in order and their thumbnails saved |
| MainApp.App.CollectTicked | app/main.py:256-258 | Returns the ids of the ticked listed rows, in listing order |
| MainApp.App.DeleteSelected | app/main.py:229-231 | Removes exactly the rows and thumbnails whose id is selected |
| MainApp.App.ListProducts | app/main.py:237-258 | Changes nothing. Returns the user's listing, on every row of which colored_write succeeds, and the ids of its ticked rows in listing order |
| MainApp.App.Display | app/main.py:227-258 | When pressed, deletes exactly the selected ids. The old selection is then dropped in both cases. Returns the user's listing, on every row of which colored_write succeeds, and selects the ids of its ticked rows. Keeps every stored expiry text readable |

## Left out

- Streamlit rendering and widgets are not part of this model: columns, buttons, checkboxes, images and markdown. Presses and checkbox states are parameters.
- `autoinput`, `login`, `dish`, `ImageUploader.upload` and the whole of `app/chat_utils.py` are not part of this model. They are network I/O or UI glue.
- The per-row edits of the input form are not modelled: the item name, type and date widgets (app/main.py:181-189), which only copy widget values into the row. The image change (app/main.py:171-174) is not modelled either: it replaces the row's image with the squared upload, and raises wherever `square` raises.
- SQLite connections, `os.makedirs`, path joining and PNG encoding are not modelled. Each table is an in-memory sequence and the image directory is a set of ids.
- Pixels are not modelled: resampling, `paste` and the white background. Only sizes and offsets are.
- Clock and UUIDs are parameters. `datetime.date.today()` and `uuid.uuid4()` become `today` and `id`. The default date of `InputData` (app/main.py:38) is evaluated once, when the class is defined. The `App` object lives in the session state (app/main.py:326-333), and its methods look `InputData` up in the globals of the run that defined them. So the rows that "入力欄追加" adds get the date of the session's first run, not the current date. The model passes that date in as `today`.
- MainApp.App.MakeInputData: a detection with a missing key raises KeyError in the source, but the model's detections always carry every field. Null name values are not modelled either.
- The form's `EXPIRY_TYPE_DICT` lookup (app/main.py:187) raises for a row whose type is neither of the two kinds. `make_input_data` can copy such a type from the server. That lookup is UI and is not modelled.
- MainApp.RowFromDetection: a given date is read by `Dates.ParseIso`, so unpadded or space-padded dates such as "2024-1-5" or "2024-01- 5" are refused here, while `strptime` accepts them. Its square step uses the exact ratio (see `ImageUtils.SquareLayout`), so a float rounding that makes a side zero pixels is not modelled.
- MainApp.App.MakeInputData: inherits the date and ratio gaps of `RowFromDetection`.
- MainApp.App.MakeRow: inherits the date and ratio gaps of `RowFromDetection`.
- MainApp.ColoredWrite: reads the text with `Dates.ParseIso`, so it refuses unpadded or space-padded dates that `strptime` accepts. Texts that register stores are always padded.
- MainApp.App.constructor: requires every stored expiry text to be readable. This holds for any table that only register has written. A database file edited by other programs could hold a text that makes display raise at app/main.py:212, and that case is not modelled.
- Dates.ParseIso: accepts only the zero-padded ten-character form. `strptime` with `%Y-%m-%d` also accepts unpadded months and days (for example "2024-1-5"), space-padded ones (for example "2024-01- 5") and non-ASCII digits. Stored dates are always in the padded form, because register writes `isoformat()` text.
- ImageUtils.SquareLayout: uses the exact ratio, truncated. The source multiplies by a floating-point ratio, which can round a side one pixel lower, and so may refuse a few inputs that `SquareFits` accepts.
- ImageUtils.CropSize: coordinates are integers. The detection server's coordinates may be floats.
- `make_input_data` unpacks the box from `row['coordinate'].values()` by position (app/main.py:99), so the box depends on the key order of the server's JSON object. `Detection` takes the four coordinates by name. The model therefore assumes the server sends `xmin`, `ymin`, `xmax`, `ymax` in that order.
- ImageUtils.ImageProcessor.Crop: returns a success flag instead of `self`. Method chaining is a Python convenience with no state of its own.
- DbUtils.DatabaseManager.Insert: requires the table to exist. It does not model SQLite's failure once ids reach 2^63 - 1. Ids are unbounded naturals.
- DbUtils.UserManager.Register: requires the table to exist. It ignores the rowid ceiling of 2^63 - 1.
- DbUtils.UserManager.GetUsers: returns names. The source returns `sqlite3.Row` objects that hold one name each.
- DbUtils.UserManager.Create: states the new rows. What `GetUsers` returns afterwards follows from `GetUsers`'s own contract.
- DbUtils.SelectByUser: fixes one order among rows with equal expiry text. SQLite leaves that order unspecified, so contracts speak only of sortedness and multiplicities.

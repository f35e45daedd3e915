# AppCaravana core, modelled in Dafny

AppCaravana is a desktop application for a caravan (trailer) dealership. It
keeps clients, caravanas (units in stock), sales (`Venta`) and their line
items (`VentaCaravana`) in an Entity Framework Core database. This project
models the parts of it that carry logic:

- **The store and its schema rules** (`store.dfy`). These are the
  delete behaviours and unique indexes of `AppDbContext`. The database is
  immutable maps keyed by Id. Its invariant is `Valid`: keys are Ids,
  foreign keys hold, and DNI, matrícula, SENASA number and serie are unique.
  Every write either keeps `Valid` or fails the way the database would.
- **The sale form** (`sale_form.dfy`). This covers:
  - the two lists of available and selected caravanas;
  - the add and remove buttons;
  - the running total;
  - the save, which reconciles the sale's line items with the selection
    and flips availability flags.
- **The sales list** (`sales_view.dfy`): newest-first ordering, and
  deleting a sale, which releases its caravanas unless another sale holds
  them.
- **The client public code** (`qr_code.dfy`, `qr_scan.dfy`,
  `clients_view.dfy`, `client_form.dfy`). This covers:
  - the QR text codec and the code generator;
  - the per-client image path;
  - the scan screen's lookup and sales summary;
  - the client list's lazy repair of codes and images;
  - the client delete guard;
  - the client form's save.
- **The caravana form** (`caravana_form.dfy`): required fields, trimming,
  number parsing, create versus edit.
- **Google Drive helpers** (`drive.dfy`): the extension-to-MIME table,
  the query strings, and the update-or-create choice of an upload.
- **The three boolean converters** (`converters.dfy`).

Money (`decimal` in the program) is an `int` number of cents. Some
supporting modules model the .NET library behaviour the code relies on:
- `text.dfy`: `Trim`, `Split`, `int.Parse`, `ToUpperInvariant`, ordinal
  ignore-case comparison;
- `paths.dfy`: `Path.Combine`, `GetFileName`, `GetExtension`;
- `ordering.dfy`: sorting, and the key order in which a table is read.

Outside inputs are parameters:
- `DateTime.Now`;
- the GUID drawn, as 32 hex digits;
- the autoincrement value of a new row;
- the set of image files on disk, and whether an image write or delete
  succeeds;
- the user's confirmation and list selections;
- the culture-dependent `decimal.Parse` and decimal formatting;
- the Drive folder listing.

An exception becomes an outcome constructor. In the caravana and client
forms the handlers catch it, and it becomes `FormatError` or `Failed`. The
sale form's save and the sales list's delete have no handler around
`First` and `SaveChanges` (Views/VentaFormWindow.xaml.cs:163-251,
Views/VentasView.xaml.cs:65). There the uncaught exception becomes
`Aborted`, which carries whatever had been committed, or `Failed`, after
which nothing has been written.

## Model

| member | source | states |
|---|---|---|
| Store.RemoveCliente | Data/AppDbContext.cs:38-42 | A client is removed exactly when it exists and no sale refers to it. Otherwise the result is `Restricted` or `NotFound`. Only that client disappears, and the store stays valid. |
| Store.RemoveVenta | Data/AppDbContext.cs:45-49 | Removing an existing sale also removes exactly its line items (cascade). Every other sale, item, client, caravana and authorisation is untouched, and validity is kept. |
| Store.RemoveCaravana | Data/AppDbContext.cs:51-62 | A caravana is removed exactly when it exists and no line item refers to it (restrict). Its SENASA authorisations go with it (cascade), nothing else changes, and validity is kept. |
| Store.PutCaravana | Data/AppDbContext.cs:77-87 | Writing a caravana succeeds exactly when no other caravana shares its matrícula, SENASA number or serie. On success only that row changes, and validity is kept. |
| Store.PutCliente | Data/AppDbContext.cs:73-75 | Writing a client succeeds exactly when no other client has its DNI. On success only that row changes, and validity is kept. |
| Store.PutVenta | Data/AppDbContext.cs:38-42 | Writing a sale header succeeds exactly when its client exists (foreign key). On success only that header changes, and validity is kept. |
| Store.HeldByStored | Views/VentaFormWindow.xaml.cs:221-224 | In a valid store, every caravana a sale's line items hold is a stored caravana, and a sale that is not stored holds none. When the availability flags are in step with the line items, a stored caravana is unavailable exactly when some stored sale holds it. |
| Store.FlagsOnlyKeepValid | Data/AppDbContext.cs:77-87 | Changing only availability flags cannot break a schema rule. |
| Store.SameIdsKeepValid | Data/AppDbContext.cs:73-75 | Rewriting clients while keeping their keys, Ids and DNIs cannot break a schema rule. |
| SaleForm.AddOne | Views/VentaFormWindow.xaml.cs:124-131 | Adding a caravana whose Id is already selected changes nothing. |
| SaleForm.AddCaravanas | Views/VentaFormWindow.xaml.cs:121-135 | After adding, the selected Ids are the old ones plus the picked ones, appended after the old selection. Picked Ids that were not selected leave the available list. The total is the sum of the selected prices, and no Id is listed twice. |
| SaleForm.RemoveOne | Views/VentaFormWindow.xaml.cs:140-147 | Removing a unit drops its Id from the selection. It rejoins the available list only if its own flag says available and its Id is not listed there yet. |
| SaleForm.RemoveCaravanas | Views/VentaFormWindow.xaml.cs:137-151 | After removing, the selected Ids lose the picked ones. The available Ids gain exactly the picked units whose flag is set. The total is recomputed, and no Id is listed twice. |
| SaleForm.SoldUnitVanishesAfterReAdd | Views/VentaFormWindow.xaml.cs:143 | A unit loaded as unavailable (a sale's own unit) does not return to the available list when removed. After remove, add and remove it is listed nowhere. |
| SaleForm.Open | Views/VentaFormWindow.xaml.cs:43-119 | For a new sale, the available list is the caravanas flagged available and nothing is selected. When editing, the list is those plus the sale's own caravanas, and the selection is exactly the caravanas the sale holds. Both lists hold the stored rows themselves, with their current prices. Client and date come from the stored sale. The total is the sum of the current prices of the sale's caravanas, not the stored `Importe`. No Id is listed twice. |
| SaleForm.AvailableNoDup | Views/VentaFormWindow.xaml.cs:48-51 | Listing the available caravanas in key order lists no Id twice. |
| SaleForm.Finish | Views/VentaFormWindow.xaml.cs:199-246 | Once the header is written, reconciliation completes exactly when every newly selected caravana still exists. The sale then holds exactly the selected Ids, other sales' items are untouched, and the store stays valid. |
| SaleForm.Save | Views/VentaFormWindow.xaml.cs:163-251 | The save is refused exactly when no client or no caravana is chosen. It aborts with the store unchanged when the edited sale or the client is gone. When a newly selected caravana is gone, it aborts with the sale header committed and nothing else changed. On success the header carries the selection's total, the sale holds exactly the selected caravanas, and other sales' items are unchanged. |
| SaleForm.ReconcileItems | Views/VentaFormWindow.xaml.cs:199-241 | Other sales' items are untouched. The sale keeps an item exactly when its caravana is still selected, and kept items keep their stored amount. Each new item belongs to the sale, refers to a newly selected caravana and copies that caravana's current price. |
| SaleForm.ReconcileHeld | Views/VentaFormWindow.xaml.cs:199-241 | After reconciling, the caravanas the sale holds are exactly the selected Ids. |
| SaleForm.ReconcileFlags | Views/VentaFormWindow.xaml.cs:206-216 | A newly selected caravana becomes unavailable. A dropped one becomes available only if no other sale holds it. Every other flag and every other field is unchanged. |
| SaleForm.ReconcileValid | Views/VentaFormWindow.xaml.cs:199-246 | Reconciling keeps every schema rule. |
| SaleForm.ReconcileSold | Views/VentaFormWindow.xaml.cs:199-241 | After reconciling, a caravana is held by some sale exactly when it is selected, or was held by another sale. |
| SaleForm.ReconcileLedger | Views/VentaFormWindow.xaml.cs:206-240 | If availability matched "held by no sale" before, it still does after reconciling. |
| SaleForm.ReconcileNoDuplicates | Views/VentaFormWindow.xaml.cs:226-241 | Each newly selected Id gets exactly one new item, so no sale ends up holding one caravana twice. |
| SaleForm.SaveSteps | Views/VentaFormWindow.xaml.cs:176-246 | A successful save is the header write followed by reconciliation of the selection. |
| SaleForm.SaveFlags | Views/VentaFormWindow.xaml.cs:206-216 | After a successful save, only the caravanas the save touched change their flag, and only the flag. |
| SaleForm.NewSaleReservesAll | Views/VentaFormWindow.xaml.cs:230-241 | Saving a new sale marks every selected caravana unavailable. |
| SaleForm.SavePreservesLedger | Views/VentaFormWindow.xaml.cs:163-251 | A save that completes or aborts part-way keeps availability in step with the line items. |
| SaleForm.SavePreservesNoDuplicateItems | Views/VentaFormWindow.xaml.cs:163-251 | A save never gives one sale two line items for the same caravana. |
| SalesView.ListVentas | Views/VentasView.xaml.cs:18-29 | The list shows every sale exactly once, newest first. |
| SalesView.ReleaseAll | Views/VentasView.xaml.cs:68-76 | A caravana becomes available exactly when the sale holds it and no other sale does. Every other field and flag is unchanged, and the store stays valid. |
| SalesView.DeleteVenta | Views/VentasView.xaml.cs:53-84 | Declining changes nothing. Confirming deletes the sale and exactly its items, and frees its caravanas unless another sale holds them. Every other sale, item, client, field and flag is unchanged. |
| SalesView.DeletePreservesLedger | Views/VentasView.xaml.cs:66-79 | Deleting a sale keeps availability in step with the line items. |
| SalesView.DeleteKeepsOtherSales | Views/VentasView.xaml.cs:66-79 | Deleting one sale leaves every other sale holding the same caravanas. |
| SalesView.LaterOrSameTotal | Views/VentasView.xaml.cs:22-27 | Ordering by date, newest first, is a total preorder. |
| QRCode.SafeName | Services/QRCodeService.cs:74 | The name in the QR text contains no bar. Each bar is replaced by a dash, every other character is kept, and a missing name is empty. |
| QRCode.GetQRContent | Services/QRCodeService.cs:71-77 | With a bar-free code and total, the QR text splits on bars into exactly the tag `CLIENTE_CODE`, the code and the details. `ExtractGetQRContent` reads the code back. |
| QRCode.Details | Services/QRCodeService.cs:74-76 | The details hold a bar only if the total does. With no line break in the name or total, they split into exactly three lines: the name with bars replaced, the sale count and the total. |
| QRCode.ExtractPublicCode | Services/QRCodeService.cs:93-108 | A code is read exactly when the text starts with the tag `CLIENTE_CODE` and a bar. The code read has no bar and is the whole field after the tag. |
| QRCode.ExtractGetQRContent | Services/QRCodeService.cs:71-101 | For a code without a bar, reading the QR text back gives the code, for any name, count and total. |
| QRCode.ExtractClientId | Services/QRCodeService.cs:114-129 | An Id is read only when the first field is `CLIENTE` and the second parses as a 32-bit integer. It is that integer. |
| QRCode.NoClientIdInQRContent | Services/QRCodeService.cs:71-129 | No text the generator writes yields a client Id. |
| QRCode.ExtractClientIdLegacy | Services/QRCodeService.cs:114-129 | Text in the older format (the field `CLIENTE`, a bar, the Id, a bar, anything) yields its Id for every 32-bit Id. |
| QRCode.GeneratePublicCode | Services/QRCodeService.cs:83-87 | The code is 12 characters: `C-` and ten upper-case hex digits. It has no bar and is not blank. |
| QRCode.PublicCodeDeterminedByPrefix | Services/QRCodeService.cs:83-87 | Two GUIDs give the same code exactly when their first ten hex digits agree. |
| QRCode.GetQRImagePath | Services/QRCodeService.cs:134-137 | The image path lies inside the QR folder: it starts with the folder and is longer than it. With no folder it is just the file name. The file name is `Cliente_{id}_QR.png`, and its extension is `.png`. |
| QRCode.ImagePathInjective | Services/QRCodeService.cs:52-53 | Different clients never share an image path. |
| QRCode.GenerateForClient | Services/QRCodeService.cs:30-65 | A non-blank existing code is reused, otherwise a fresh one is drawn. The text carries no sales and a zero total, and reads back to the code. The image goes to the client's path, and a failed write yields nothing. |
| QRScan.ResolveCode | Views/EscaneoQRView.xaml.cs:47-55 | Input starting with the tag, ignoring case, goes through the extractor. Any other input is the code verbatim. |
| QRScan.FindByCode | Views/EscaneoQRView.xaml.cs:63-67 | The client found holds exactly the code. None is found exactly when no client holds it. |
| QRScan.Row | Views/EscaneoQRView.xaml.cs:89-98 | A sale's row carries its Id, date and amount, and counts exactly its line items. |
| QRScan.ItemsOfSale | Views/EscaneoQRView.xaml.cs:95 | A sale's items are listed once each: exactly the items of that sale. |
| QRScan.SalesOf | Views/EscaneoQRView.xaml.cs:88-97 | Every sale of the client appears exactly once, in key order, with its row. |
| QRScan.Summarise | Views/EscaneoQRView.xaml.cs:100-123 | The summary's count is the number of the client's sales. Its total is the sum of their amounts, and spend equals total. Its caravana count sums the per-sale counts. A client with no sales gets zeros. |
| QRScan.Lookup | Views/EscaneoQRView.xaml.cs:57-79 | A missing or blank code is unrecognised. Otherwise the result is the client holding exactly that code, with its summary, or not-found when no client holds it. |
| QRScan.Search | Views/EscaneoQRView.xaml.cs:32-128 | Blank input is rejected before any lookup. Otherwise the trimmed input is resolved and looked up as in `Lookup`. |
| QRScan.ScanQRContent | Views/EscaneoQRView.xaml.cs:32-79 | Scanning a generated QR text finds exactly the client holding its code, or reports that code as not found. |
| QRScan.TypedCodeLooksUpItself | Views/EscaneoQRView.xaml.cs:47-67 | A typed code without the tag is looked up verbatim. |
| QRScan.LowerCaseTagRejected | Views/EscaneoQRView.xaml.cs:47-61 | Input starting with the lower-case tag passes the case-insensitive test, yet is always reported unrecognised. |
| QRScan.ResolveCodeIgnoringCase | Views/EscaneoQRView.xaml.cs:47-55 | Corrected resolution: with the tag in any case, the field after it is the code. With the exact tag it agrees with `ResolveCode`. |
| QRScan.SearchIgnoringCase | Views/EscaneoQRView.xaml.cs:32-128 | The corrected search has the outcomes of `Search`, with codes resolved ignoring the tag's case. |
| QRScan.SearchIgnoringCaseAgrees | Views/EscaneoQRView.xaml.cs:47-55 | The corrected search differs from the original only for input whose tag is in a different case. |
| QRScan.LowerCaseTagAccepted | Views/EscaneoQRView.xaml.cs:47-55 | The corrected resolution reads the code after a lower-case tag. |
| QRScan.ScanLowerCaseTag | Views/EscaneoQRView.xaml.cs:32-79 | With the correction, a lower-case tagged text finds exactly the client holding its code. |
| ClientsView.ClientLeTotal | Views/ClientesView.xaml.cs:29-32 | Ordering by surname, then name, is a total preorder. |
| ClientsView.CodeFor | Views/ClientesView.xaml.cs:40-44 | A client keeps its non-blank code, otherwise it gets a fresh one. The result is never blank. |
| ClientsView.RefreshClient | Views/ClientesView.xaml.cs:36-63 | A client with Id at most 0 is unchanged. Any other client gets a non-blank code (keeping a non-blank one) and its own image path, with its other fields unchanged. It fails only when its image is missing and cannot be written. |
| ClientsView.RefreshedClients | Views/ClientesView.xaml.cs:36-63 | Every client is refreshed, keeping its key, Id and DNI. |
| ClientsView.Shown | Views/ClientesView.xaml.cs:29-32 | The list shows every client exactly once, by surname and then name. |
| ClientsView.LoadClients | Views/ClientesView.xaml.cs:23-77 | The load fails exactly when a missing image cannot be written. Otherwise every client is shown refreshed and sorted, and the store is written only if some client needed a change. The files gain exactly the images written. |
| ClientsView.LoadRepairsEveryClient | Views/ClientesView.xaml.cs:38-61 | After a load, every client with Id above 0 has a non-blank code, its existing non-blank code kept, and its own image path, whose file exists. |
| ClientsView.LoadPreservesValid | Views/ClientesView.xaml.cs:65-68 | The load changes only clients and keeps the store valid. |
| ClientsView.LoadIsStable | Views/ClientesView.xaml.cs:23-77 | Loading again after a load that wrote changes nothing more. |
| ClientsView.LoadOfRepairedStore | Views/ClientesView.xaml.cs:38-68 | When every client already has a code and an image file, the load writes nothing. |
| ClientsView.LoadWithoutUpdates | Views/ClientesView.xaml.cs:65-68 | When no client needs a change, the store is not written. |
| ClientsView.NothingWritten | Views/ClientesView.xaml.cs:46-61 | When no client needs a change, no image is written. |
| ClientsView.DeleteClient | Views/ClientesView.xaml.cs:101-152 | Declining does nothing, and a client with sales is refused. A client that no longer exists is reported missing. Otherwise exactly that client goes and the store stays valid. Its image is deleted, and a failed image delete is ignored. |
| ClientsView.DeleteKeepsOtherImages | Views/ClientesView.xaml.cs:132-139 | Deleting one client never removes another client's image. |
| ClientForm.LoadFields | Views/ClienteFormWindow.xaml.cs:25-38 | The fields are the stored client's, or none when it is gone. |
| ClientForm.SaveClient | Views/ClienteFormWindow.xaml.cs:76-140 | The save is refused exactly when name, surname or DNI is blank, and fails exactly when the edited client is gone or the DNI is taken. Otherwise the fields are stored as typed, the registration date is kept on edit, and nothing else changes. With an image written, the code is reused or fresh and the path is the client's. A failed image keeps the first write. |
| ClientForm.SaveUnchangedIsNoOp | Views/ClienteFormWindow.xaml.cs:76-110 | Saving a client's own loaded fields, with the image write failing, leaves the store as it was. |
| CaravanaForm.Built | Views/CaravanaFormWindow.xaml.cs:71-81 | Every text is trimmed. The checkbox defaults to false, and a missing optional text becomes empty. |
| CaravanaForm.SaveCaravana | Views/CaravanaFormWindow.xaml.cs:43-101 | The save is refused exactly when a required box is blank. It is a format error exactly when the year or price does not parse. A save writes the trimmed, parsed caravana under the edited or new Id, changing nothing else. A failure is a missing edited row, an overflow or a unique-key clash. |
| CaravanaForm.WriteParsed | Views/CaravanaFormWindow.xaml.cs:74-96 | A bad year, or a good year with a bad price, is a format error. Only two parsed numbers lead to a write. |
| CaravanaForm.Write | Views/CaravanaFormWindow.xaml.cs:84-87 | The write succeeds exactly when the unique keys allow it, and then stores exactly that row. |
| CaravanaForm.LoadFields | Views/CaravanaFormWindow.xaml.cs:22-41 | The fields are the stored caravana's, or none when it is gone. |
| CaravanaForm.LoadSaveRoundTrip | Views/CaravanaFormWindow.xaml.cs:22-101 | Loading a caravana and saving it unchanged leaves the store as it was, when its stored texts are already trimmed and its price formats and parses back. |
| Drive.MimeOfExtension | Services/GoogleDriveService.cs:292-300 | A known extension maps to its type, and `.jpg` and `.jpeg` both give `image/jpeg`. Anything else gives `application/octet-stream`. |
| Drive.GetMimeType | Services/GoogleDriveService.cs:289-302 | A path without extension, or with an unknown one, gives `application/octet-stream`. |
| Drive.MimeTypeOfName | Services/GoogleDriveService.cs:289-302 | A file name ending in an extension gets that extension's type, lower-cased. |
| Drive.MimeTypeIgnoresCase | Services/GoogleDriveService.cs:291 | Upper-casing the extension does not change the type. |
| Drive.EscapeValueRoundTrip | Services/GoogleDriveService.cs:42-43 | With backslashes and quotes both escaped, the query parser reads back exactly the name, whatever follows. |
| Drive.EscapeQuotesRoundTrip | Services/GoogleDriveService.cs:42-43 | Escaping only quotes reads back exactly a name that has no backslash. |
| Drive.EscapeQuotesTrailingBackslash | Services/GoogleDriveService.cs:42-43 | Escaping only quotes leaves a name ending in a backslash unterminated. |
| Drive.ParentsClause | Services/GoogleDriveService.cs:44-45 | The parents clause is empty exactly when the folder Id is null or empty. |
| Drive.FileQueryReadsName | Services/GoogleDriveService.cs:40-46 | The file query's name literal reads back as the name, followed by `trashed=false` and the parents clause, when the name has no backslash. |
| Drive.FileQueryTrailingBackslash | Services/GoogleDriveService.cs:40-46 | The file query for a name ending in a backslash has an unterminated literal. |
| Drive.FileQueryEscapedReadsName | Services/GoogleDriveService.cs:40-46 | With backslashes escaped too, the query reads back every name. |
| Drive.FolderQueryReadsName | Services/GoogleDriveService.cs:247-251 | The folder query reads back a name with no quote or backslash. |
| Drive.FindFile | Services/GoogleDriveService.cs:36-62 | The file found matches the name and folder. None is found exactly when no listed file matches. |
| Drive.PlanUpload | Services/GoogleDriveService.cs:68-111 | The upload updates exactly when a file of the target name is in the folder, and then updates that file. Otherwise it creates one with the target name and parent. The MIME type is always that of the local path. |
| Drive.ApplyUpload | Services/GoogleDriveService.cs:79-111 | An update keeps the listing, and a create appends one file. |
| Drive.UploadThenFind | Services/GoogleDriveService.cs:68-111 | After an upload the file is found. An existing file stays the one found, and a new file is appended. |
| Drive.UploadTwiceNoDuplicate | Services/GoogleDriveService.cs:68-111 | Uploading the same name twice updates the first file instead of creating another. |
| Converters.TextConvert | Convertidores/BoolToTextConverter.cs:12-19 | True gives "Sí", false gives "No", and anything else "N/A", each exactly in its case. |
| Converters.TextConvertBack | Convertidores/BoolToTextConverter.cs:21-28 | A string reads as true exactly when it is "Sí" ignoring case. Anything not a string is false. |
| Converters.TextRoundTrip | Convertidores/BoolToTextConverter.cs:12-28 | Every boolean survives conversion to text and back, and "N/A" reads back as false. |
| Converters.TextDistinguishesStates | Convertidores/BoolToTextConverter.cs:14-18 | Two values give the same text exactly when both are true, both false, or both not booleans. |
| Converters.StatusConvert | Convertidores/BoolToStatusConverter.cs:12-19 | True gives "OK", false gives "PENDIENTE", and anything else "N/A", each exactly in its case. |
| Converters.StatusConvertBack | Convertidores/BoolToStatusConverter.cs:21-24 | Converting back is unsupported and always fails. |
| Converters.StatusDistinguishesStates | Convertidores/BoolToStatusConverter.cs:16-18 | The three status texts are pairwise distinct: two values give the same status exactly when they are in the same state. |
| Converters.ColorConvert | Convertidores/BoolToColorConverter.cs:13-29 | True gives green (22,163,74), false red (220,38,38), and anything else grey (107,114,128), each exactly in its case. All components are bytes. |
| Converters.ColorConvertBack | Convertidores/BoolToColorConverter.cs:31-34 | Converting back is unsupported and always fails. |
| Converters.ColorDistinguishesStates | Convertidores/BoolToColorConverter.cs:20-28 | The three colours are pairwise distinct: two values give the same colour exactly when they are in the same state. |
| Text.Trim | Views/EscaneoQRView.xaml.cs:36 | The trimmed text is the infix of the input that starts where the leading white space ends, with only white space after it. It starts and ends with a non-space, and it is empty exactly for blank input. |
| Text.TrimIdempotent | Views/CaravanaFormWindow.xaml.cs:71-81 | Trimming twice is trimming once. |
| Text.SplitJoin | Services/QRCodeService.cs:97 | Splitting fields joined by a separator they lack gives the fields back. |
| Text.ParseIntToString | Views/CaravanaFormWindow.xaml.cs:74 | Every 32-bit integer's decimal text parses back to it. |
| Ordering.SortBy | Views/ClientesView.xaml.cs:29-32 | Sorting gives a sorted permutation of the input. |
| Ordering.SortedKeys | Views/EscaneoQRView.xaml.cs:63-67 | A table read without ORDER BY comes in increasing key order, with every key exactly once. |
| Paths.GetFileNameCombine | Services/QRCodeService.cs:134-137 | The file name of a folder combined with a plain name is that name. |

## Left out

- Image rendering (QRCoder, System.Drawing), message boxes, clipboard and WPF list rendering are left out. The outcome constructors stand for the messages shown.
- OAuth, credentials, tokens and every HTTP call to Google Drive are left out. The folder listing is a parameter, and trashed files are not in it.
- `GetOrCreateFolderAsync` is modelled only for its query string, because its create step is a network call.
- `decimal.Parse` and decimal-to-string are culture-dependent. They are function parameters, so only their shape (parsed, bad format, overflow) is modelled.
- Drive.GetMimeType: lower-cases ASCII letters only, because `ToLower` is culture-sensitive. Every extension in the table is ASCII.
- `OrdinalIgnoreCase` upper-cases ASCII and Latin-1 letters only. This is enough for comparing with the ASCII tag and with "Sí".
- The sale form's caravana lists are ordered by Serie for display (`OrderBy(c => c.Serie)`, `RefrescarListas`). The model keeps key order, because the order affects no stored value.
- The sale form's client combo box (`CargarClientes` in the sale form) is a lookup list, and it is not modelled.
- The scan screen keeps one long-lived database context. Its staleness against other windows is not modelled; each search reads the current store.
- Two open windows racing between an availability check and a write are not modelled. Each save and delete is one atomic step.
- ClientsView.LoadClients: images written before a failing client stays on disk. The model reports only the failure, not those files.
- The client form's `consultarVentas` (Views/ClienteFormWindow.xaml.cs:40) and the scan screen's summary display formatting are presentation only.
- ExportService, ReportService and the Python reports, DriveAutoSaveService (a timer and a semaphore), MainWindow, InformesView, the caravana list view, Stock and the migrations are outside this model.
- QRScan.Search keeps the case-sensitive extractor as written. The corrected `QRScan.SearchIgnoringCase` sits beside it (see Findings).
- Drive.FolderQueryReadsName: the folder query does not escape the name. The only names passed are constants without quotes, so the model states the read-back only for such names.

## Findings

| source | as written | input that shows it | evidently intended | confidence | as-written member | corrected member |
|---|---|---|---|---|---|---|
| Views/EscaneoQRView.xaml.cs:47-55 | The tag test ignores case, but the extractor compares the first field case-sensitively, so a lower-case tagged text is reported unrecognised. | `cliente_code` followed by a bar, the code `C-0123456789`, a bar and `x` | A text that passes the case-insensitive tag test is read by the same case-insensitive rule. | medium, not executed | QRScan.LowerCaseTagRejected | QRScan.ScanLowerCaseTag |
| Services/GoogleDriveService.cs:42-43 | Only quotes are escaped, so a name ending in a backslash turns the closing quote into an escaped quote and leaves the literal unterminated. | file name `report\` | Escape backslashes as well as quotes. | low, not executed | Drive.FileQueryTrailingBackslash | Drive.FileQueryEscapedReadsName |

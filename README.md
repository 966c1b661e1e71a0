# ClothingProductsApp — a verified model of its sequential logic

ClothingProductsApp is a small SwiftUI app. A login screen checks a fixed
username and password. Behind it, a product list screen lets the user add
clothing products (name, category, price) to an on-device Core Data store,
list them and delete them. This project models the three pieces of the app
that are logic rather than layout, and proves properties of them in Dafny:

- **The product list screen** (`products.dfy`, with the value-level logic in
  `catalog.dfy`). The class `Products.ProductsListView` holds the fetched
  products as a `seq<Record>` in the fetch request's order (timestamp
  ascending), the add form's three fields, and whether the add sheet is shown.
  `AddItem` is the guarded insert. `PressSave` is the sheet's "Guardar"
  button. `DeleteItems` is the swipe-to-delete handler. They keep an object
  invariant (`Valid`): every stored record has a non-empty name, a price
  above zero and a category from the picker's list; the list is in timestamp
  order; no object appears twice; and the picker's selection is one of the
  categories.
- **The login screen** (`login.dfy`). The class `Login.LoginView` holds the
  two text fields and three flags: `isAuthenticated`, `showError` and
  `showPassword`. Two actions change them: the "Continuar" button and the
  show-password toggle.
- **Hex colour decoding** (`hex_color.dfy`). This is the integer part of
  `Color(hex:)`, written as pure functions: sanitising, scanning a hex-digit
  prefix into an unsigned 64-bit value, and extracting the channels.
  `Decode` is the composition. `Format` writes a colour as "#rrggbb", and
  `Decode` inverts it.

Choices the model makes:

- The clock is a parameter. `AddItem` and `PressSave` take `now`, the value
  `Date()` would return.
- Price parsing is a parameter. `parse: string -> Option<real>` stands for
  `Double(newItemPrice)`; `None` means the text does not parse.
- Saving (`viewContext.save()`) always succeeds. The source has no recovery
  path: on failure it aborts the process, and there is no rollback.
- Each record carries `oid`, which stands for the identity of its managed
  object. `deleteItems` first looks up the objects at the chosen offsets,
  then deletes them one by one. `DeleteItems` does the same: it snapshots
  the identities, then loops over them removing each object by identity.
  It is proved to remove exactly the rows at those positions.
- A new record goes after every record whose timestamp is at or before its
  own (`Catalog.InsertPos`). So among equal timestamps the model puts the
  newest record last, and `AddItem`'s contract fixes that order. The fetch
  request's sort (ProductsListView.swift:16) promises nothing about ties;
  this is one order Core Data may produce (see "## Left out").
- Trimming happens before the `#` is deleted. So the sanitised text can start
  with whitespace: "# ff" becomes " ff" (`SpaceAfterHashSurvives`). It is free
  of whitespace at both ends only when the trimmed text neither starts nor
  ends with `#` (`SanitizedEnds`).
- The channels are written with integer division and remainder.
  `(n & 0xFF0000) >> 16`, `(n & 0x00FF00) >> 8` and `n & 0xFF` equal
  `(n / 65536) % 256`, `(n / 256) % 256` and `n % 256` for the non-negative
  values a `UInt64` holds.

Behaviour of the code a reader might not expect:

- The name is checked only with `isEmpty` (ProductsListView.swift:184). It
  is not trimmed, so a name made only of spaces is accepted
  (`Products.BlankNameIsStored`).
- `addItem` never validates the category (ProductsListView.swift:188). It is
  always one of the listed categories only because the picker
  (ProductsListView.swift:145-148) offers nothing else.
- A failed save calls `fatalError` (ProductsListView.swift:200 and :214).
  Nothing is rolled back and no error value exists.
- The list is sorted by timestamp only (ProductsListView.swift:16). Nothing
  fixes the order of equal timestamps.
- `addItem` assigns no identifier (ProductsListView.swift:186-190). `oid`
  models the identity of the managed object, not a persisted attribute.

## Model

| member | source | states |
|---|---|---|
| Catalog.Admits | ClothingProductsApp/ProductsListView.swift:184 | the guard of addItem: with any listed category, it admits a form exactly when the price text parses and the record built from the form is well-formed (non-empty name, price > 0) |
| Catalog.Insert | ClothingProductsApp/ProductsListView.swift:186-190 | defines the fetched list after a new object is saved, the record placed at its timestamp position; the list grows by exactly one row, and its multiset of rows is the old one plus the new record |
| Catalog.InsertPos | ClothingProductsApp/ProductsListView.swift:16 | the insertion point lies after every row stamped at or before the new time, and before the first row stamped later |
| Catalog.InsertSorted | ClothingProductsApp/ProductsListView.swift:16 | inserting a record keeps the fetched list in timestamp-ascending order |
| Catalog.InsertKeepsOrder | ClothingProductsApp/ProductsListView.swift:186-190 | after an insert, taking the new record out leaves exactly the old list, in its old order |
| Catalog.InsertAtEnd | ClothingProductsApp/ProductsListView.swift:189 | with a clock that never goes back (every stored stamp at or before the new one), the new record is appended at the end |
| Catalog.InsertKeepsInvariant | ClothingProductsApp/ProductsListView.swift:184-190 | inserting a well-formed record with a fresh identity keeps every record well-formed (non-empty name, price > 0, listed category) and identities unique |
| Catalog.RemoveAt | ClothingProductsApp/ProductsListView.swift:206-208 | defines the list after the rows at a set of positions are deleted; it is never longer than the list it came from (its exact content is stated by RemoveAtKeepsOrder) |
| Catalog.RemoveAtKeepsOrder | ClothingProductsApp/ProductsListView.swift:206-208 | deleting rows keeps exactly the rows whose positions were not selected, at ascending original positions, so the survivors keep their relative order |
| Catalog.RemoveAtRemovesSelected | ClothingProductsApp/ProductsListView.swift:206-208 | with unique identities, no object at a selected position remains after the delete, and every unselected row is still present |
| Catalog.RemoveAtKeepsInvariant | ClothingProductsApp/ProductsListView.swift:206-208 | deleting rows keeps the list sorted, every record well-formed, identities unique and below the next fresh identity |
| Catalog.DeleteObject | ClothingProductsApp/ProductsListView.swift:208 | defines what one viewContext.delete by identity does to the list: no row with that identity remains (which rows stay is stated by DeleteObjectStep) |
| Catalog.DeleteObjectStep | ClothingProductsApp/ProductsListView.swift:208 | deleting by identity the object at original position o is the same as adding o to the removed positions |
| Products.ProductsListView.constructor | ClothingProductsApp/ProductsListView.swift:20-23 | the screen starts with an empty form, category "Camiseta", the sheet closed, and the invariant holding |
| Products.ProductsListView.ToggleAddForm | ClothingProductsApp/ProductsListView.swift:114 | the "Agregar producto" button flips whether the add sheet is shown and changes nothing else |
| Products.ProductsListView.EditName | ClothingProductsApp/ProductsListView.swift:137 | the name field holds the typed text, nothing else changes |
| Products.ProductsListView.EditPrice | ClothingProductsApp/ProductsListView.swift:154 | the price field holds the typed text, nothing else changes |
| Products.ProductsListView.SelectCategory | ClothingProductsApp/ProductsListView.swift:145-148 | the picker sets the selection to one of the listed categories, so the selection is always a member of the list |
| Products.ProductsListView.AddItem | ClothingProductsApp/ProductsListView.swift:183-203 | an empty name, or a price text that does not parse or parses to a value <= 0, changes nothing; otherwise exactly one record with the form's name, category and price, stamped with the clock value, is inserted in timestamp order, the form resets to "", "Camiseta", "", and the invariant holds |
| Products.ProductsListView.PressSave | ClothingProductsApp/ProductsListView.swift:163-166 | "Guardar" does what AddItem does and always closes the sheet, whether or not the record was accepted |
| Products.ProductsListView.DeleteItems | ClothingProductsApp/ProductsListView.swift:206-217 | deleting the objects at valid ascending offsets, one by identity at a time, leaves exactly the list without the rows at those positions, and keeps the invariant |
| Login.LoginView.constructor | ClothingProductsApp/LoginView.swift:13-17 | both fields start empty, the password is hidden and no error is shown; the authentication flag is the parent's |
| Login.LoginView.EditUsername | ClothingProductsApp/LoginView.swift:52 | the username field holds the typed text, nothing else changes |
| Login.LoginView.EditPassword | ClothingProductsApp/LoginView.swift:55 | the password field holds the typed text, nothing else changes |
| Login.LoginView.PressContinue | ClothingProductsApp/LoginView.swift:58-64 | the pair "Usuario"/"123" sets isAuthenticated and leaves showError as it was; any other pair leaves isAuthenticated as it was (never clears it) and sets showError |
| Login.LoginView.TogglePassword | ClothingProductsApp/LoginView.swift:127 | the eye button flips showPassword and changes nothing else |
| Products.BlankNameIsStored | ClothingProductsApp/ProductsListView.swift:184-197 | example of the guard: the name " " with price 5 is stored as a record and the sheet closes, because the name is only checked for emptiness |
| Products.RejectedSaveKeepsForm | ClothingProductsApp/ProductsListView.swift:163-166 | example of a rejected save: price -5 stores nothing, the form keeps "Falda larga", "Falda", "-5", and the sheet still closes |
| Login.ToggleTwiceRestores | ClothingProductsApp/LoginView.swift:127 | two presses of the eye button restore the original showPassword |
| Login.ErrorOutlivesSuccess | ClothingProductsApp/LoginView.swift:58-64 | example: a wrong username and then the right pair leave the user signed in with the error message still shown, since success never clears showError |
| Login.WrongPairKeepsSession | ClothingProductsApp/LoginView.swift:58-64 | example: a wrong password on a signed-in screen shows the error and keeps isAuthenticated set |
| HexColor.LeadingSpace | ClothingProductsApp/LoginView.swift:141 | the result is the length of the longest run of whitespace that starts the text: every character in it is whitespace and the next one is not |
| HexColor.TrailingSpace | ClothingProductsApp/LoginView.swift:141 | the result is the length of the longest run of whitespace that ends the text: every character in it is whitespace and the one before it is not |
| HexColor.Trim | ClothingProductsApp/LoginView.swift:141 | trimming whitespace and newlines: the result is no longer than the input and has no whitespace at either end |
| HexColor.TrimSpec | ClothingProductsApp/LoginView.swift:141 | trimming yields the slice between a leading and a trailing run of whitespace |
| HexColor.RemoveHashes | ClothingProductsApp/LoginView.swift:142 | the result contains no "#" and every other character as often as the input |
| HexColor.RemoveHashesConcat | ClothingProductsApp/LoginView.swift:142 | deleting "#" distributes over concatenation, so the other characters keep their order |
| HexColor.RemoveHashesNone | ClothingProductsApp/LoginView.swift:142 | text with no "#" is unchanged |
| HexColor.Sanitize | ClothingProductsApp/LoginView.swift:141-142 | the text handed to the scanner contains no "#" and every other character of the trimmed text as often as it occurs there |
| HexColor.SanitizedEnds | ClothingProductsApp/LoginView.swift:141-142 | when the trimmed text neither starts nor ends with "#", the sanitised text has no whitespace at either end |
| HexColor.SpaceAfterHashSurvives | ClothingProductsApp/LoginView.swift:141-142 | "# ff" sanitises to " ff": whitespace after a leading "#" survives, because trimming comes first |
| HexColor.ScanFrom | ClothingProductsApp/LoginView.swift:143-144 | the scanned value never falls below the starting value and stays within 64 bits |
| HexColor.HexPrefix | ClothingProductsApp/LoginView.swift:144 | the result is the longest prefix made only of hex digits |
| HexColor.ScanHex | ClothingProductsApp/LoginView.swift:143-144 | scanning into a variable that starts at 0 gives a value within 64 bits, and 0 when the text does not start with a hex digit |
| HexColor.ScanHexValue | ClothingProductsApp/LoginView.swift:143-144 | the scan yields the positional value of the leading hex digits, saturated at 2^64-1 |
| HexColor.Channels | ClothingProductsApp/LoginView.swift:145-147 | each extracted channel lies in 0..255 |
| HexColor.ChannelsLow24 | ClothingProductsApp/LoginView.swift:145-147 | the channels depend only on the value mod 2^24 |
| HexColor.PackChannels | ClothingProductsApp/LoginView.swift:145-147 | for n < 2^24, red * 65536 + green * 256 + blue == n |
| HexColor.ChannelsPack | ClothingProductsApp/LoginView.swift:145-147 | a colour with byte channels is recovered from its packed 24-bit value |
| HexColor.Decode | ClothingProductsApp/LoginView.swift:140-147 | the channels of Color(hex:) before the division by 255: three bytes that pack back into the low 24 bits of the scanned value |
| HexColor.DecodeWithoutDigits | ClothingProductsApp/LoginView.swift:143-147 | text whose sanitised form has no leading hex digit decodes to (0, 0, 0) |
| HexColor.DecodeFormat | ClothingProductsApp/LoginView.swift:140-147 | every colour written as "#rrggbb" decodes back to its own channels |
| HexColor.ButtonColor | ClothingProductsApp/LoginView.swift:71 | "#a2d8d9" decodes to (162, 216, 217), the product list's icon colour |
| HexColor.TextColor | ClothingProductsApp/LoginView.swift:36 | "#606367" decodes to (96, 99, 103) |
| HexColor.BackgroundColor | ClothingProductsApp/LoginView.swift:85 | "#ffffff" decodes to (255, 255, 255) |

## Left out

- SwiftUI layout, styling, navigation, sheets as views, animations and the `EditButton` wiring: rendering with no state logic. Only the `isAddItemPresented` flag of the sheet is modelled.
- Core Data: the managed object context, the fetch request machinery, and the failure path of `save()`. A failed save aborts the process, and there is no rollback to model. The fetch request's ordering is modelled as the order of `items`.
- Loading a persisted store at launch: the model starts from an empty store (`ProductsListView.constructor`). A store written by earlier sessions was built by the same operations, so it satisfies the same invariant.
- `Double(newItemPrice)`: floating-point parsing, including "nan", "inf" and exponent forms. It is the parameter `parse`, and prices are `real`.
- `Date()` and the date and price display formatting (`DateFormatter`, `%.2f`).
- The division of each channel by 255.0 into a `CGFloat`: floating point.
- `HexColor.ScanHexValue`: `Scanner` behaviour beyond scanning a leading hex-digit prefix is not modelled. That covers its default skipping of leading whitespace and its optional "0x" prefix. So for "# ff" the model decodes black, while Foundation's scanner would skip the space. Overflow past 64 bits saturates at 2^64-1, the scanner's documented overflow result; that behaviour is not visible in the repository.
- Products.ProductsListView.AddItem: its contract is stronger than the source's promise on one point. Among records with equal timestamps it puts the new one last (through `Catalog.InsertPos`), while the fetch request's sort (ProductsListView.swift:16) leaves the order of ties to Core Data.
- ContentView.swift, the if/else between the two screens on `isAuthenticated`, and ClothingProductsAppApp.swift, the app and environment wiring. `LoginView.isAuthenticated` is a field here; in the app it is a binding to ContentView's state.
- The `PersistenceController` and the `Item` entity definition are not part of this model. The record's fields come from the assignments in `addItem`.

# JMV Auto Repasse catalog logic, modelled in Dafny

The site is a presentational React page for a used-vehicle dealer. Its logic lives in three places, and this project models each of them and proves what they promise:

- **The catalog transform** (`vehicleData.ts`). Each hand-entered vehicle record becomes a display record. The price is written as Brazilian currency with no decimals ("R$ 76.500"). A badge gives the rounded percentage below the FIPE reference price ("21% ABAIXO FIPE"), or the fallback text "PREÇO DE REPASSE". The mileage is grouped in thousands with a " km" suffix. The record also gets the three specs `[fuel, transmission, km]`. Modules `NumberFormat` (number_format.dfy) and `VehicleData` (vehicle_data.dfy).
- **The showcase carousel** (`components/VehicleShowcase.tsx`). A `Carousel` class holds `currentIndex` and `direction`. `Paginate` moves one step back or forward. It wraps by clamping, exactly as the code does, and this is proved equal to moving modulo the list length. A thumbnail click jumps to an index. The arrow keys page. Module `VehicleShowcase` (vehicle_showcase.dfy).
- **The page** (`App.tsx`). The active catalog is a stable filter on "not sold". A `Page` class holds the overlay's selection, which is a vehicle or none. `navigateVehicle` looks the selection up by id and moves it to the next or previous active vehicle, wrapping. Escape, the backdrop and the close button clear the selection. One keydown event reaches both window listeners: the carousel's and the overlay's. Module `App` (app.dfy).

`Optional` (optional.dfy) holds the `Option` type. `Modular` (modular.dfy) holds remainder facts used by the wrap-around proofs.

Specification functions, each used by the lemmas and methods below:

- `VehicleData.Discount` is the exact form of `Math.round(((fipe - price) / fipe) * 100)`, which is `(200 * (fipe - price) + fipe) / (2 * fipe)` under floor division.
- `VehicleData.FipeLabel` gives the badge text.
- `VehicleShowcase.PaginateIndex` gives the index after `paginate`.
- `App.Navigate` gives the selection after `navigateVehicle`.
- `App.ModalKey` gives the selection after the overlay's key handler.

Three behaviours of the code the model keeps:

- Selecting a vehicle from the showcase sets the selection unconditionally (App.tsx:302). There is no membership check.
- The badge texts are the Portuguese strings in the code.
- The carousel also pages while the overlay is open, because both listeners are on `window`.

## Model

| member | source | states |
|---|---|---|
| NumberFormat.DecimalDigits | vehicleData.ts:117 | the numeral of n is non-empty, all digits, starts with '0' only for 0, and is exactly "0" for 0 |
| NumberFormat.ParseDecimalDigits | vehicleData.ts:117 | reading the numeral of n back gives n |
| NumberFormat.DecimalDigitsInjective | vehicleData.ts:117 | different numbers have different numerals |
| NumberFormat.StripGroupDigits | vehicleData.ts:110 | removing the '.' separators from a grouped digit string gives the digits back |
| NumberFormat.StripDotsSeparatedGroup | vehicleData.ts:110 | removing the dots from a prefix, a '.' and a group gives the prefix's characters followed by the group |
| NumberFormat.GroupDigitsWellGrouped | vehicleData.ts:117 | the grouping is a leading group of 1 to 3 digits, then groups of '.' plus exactly 3 digits |
| NumberFormat.Grouped | types.ts:16-19 | the pt-BR rendering of n is well grouped, its digits without dots are the numeral of n, and they parse back to n |
| NumberFormat.GroupedBelowThousand | vehicleData.ts:117 | numbers below 1000 get no separator |
| VehicleData.FormatPrice | vehicleData.ts:110 | the price text is "R$", the currency space, then the grouped price, which parses back to the price |
| VehicleData.FormatKm | vehicleData.ts:117 | the km text is the grouped km, which parses back to km, followed by " km" |
| VehicleData.Discount | vehicleData.ts:113 | a price at or above the reference gives no positive discount, and a non-negative price gives at most 100; DiscountIsRounded characterises the value |
| VehicleData.DiscountIsRounded | vehicleData.ts:113 | with fipe > 0, the discount is the unique k with k - 1/2 <= 100(fipe - price)/fipe < k + 1/2 (round half up), in both directions |
| VehicleData.DiscountWithoutReference | vehicleData.ts:113 | with fipe <= 0 the discount is 0 |
| VehicleData.DiscountPositive | vehicleData.ts:113-114 | with fipe > 0, the discount is positive exactly when 200(fipe - price) >= fipe |
| VehicleData.FipeLabel | vehicleData.ts:114 | a price at or above the reference gets the fallback badge; FipeLabelCases gives every case |
| VehicleData.FipeLabelCases | vehicleData.ts:113-114 | the badge shows a percent exactly when fipe > 0 and 200(fipe - price) >= fipe; the percent shown is the positive rounded discount, written without a leading zero; otherwise the badge is "PREÇO DE REPASSE" |
| VehicleData.NoDiscountFallback | vehicleData.ts:113-114 | fipe <= 0 or price >= fipe always gives the fallback text, never a zero or negative percent |
| VehicleData.ShownPercentInRange | vehicleData.ts:113-114 | for price >= 0, a percent on the badge lies in 1..100 |
| VehicleData.ToVehicle | vehicleData.ts:119-134 | id, name, transmission, fuel, image and description are copied; brand is brand + " • " + year; rawPrice is the price; the price, badge and km texts are as above; specs is exactly [fuel, transmission, km text] |
| VehicleData.Catalog | vehicleData.ts:108 | the catalog has one record per raw record, and record i is built from raw record i alone |
| VehicleData.Vehicles | vehicleData.ts:16-101 | the site's catalog has as many records as the stock |
| VehicleData.FirstVehicleBadge | vehicleData.ts:22-23 | price 76500 against FIPE 96753 shows "21% ABAIXO FIPE" |
| VehicleData.FirstVehicleKm | vehicleData.ts:24 | 8180 km shows "8.180 km" |
| VehicleData.FirstVehiclePrice | vehicleData.ts:22 | 76500 shows as "R$ 76.500" |
| VehicleData.FirstVehicleDisplay | vehicleData.ts:17-30 | the first stock record displays badge "21% ABAIXO FIPE", km "8.180 km", price "R$ 76.500" and specs ["1.0 Flex", "Automático", "8.180 km"] |
| VehicleData.StockIdsDistinct | vehicleData.ts:16-101 | the stock's ids are pairwise distinct |
| VehicleShowcase.PaginateIndex | components/VehicleShowcase.tsx:25-27 | over a non-empty list the new index is always in [0, n), from any old index; PaginateWraps shows it is the modular step |
| VehicleShowcase.PaginateWraps | components/VehicleShowcase.tsx:25-27 | from a valid index, the clamping step of +1 or -1 equals (index ± 1) mod n and stays in [0, n) |
| VehicleShowcase.PaginateTimesModular | components/VehicleShowcase.tsx:23-28 | k steps in one direction from a valid index land on (index + k·step) mod n |
| VehicleShowcase.FullTurn | components/VehicleShowcase.tsx:23-28 | n steps in either direction return to the start |
| VehicleShowcase.KeyIndex | components/VehicleShowcase.tsx:33-36 | an arrow key over a non-empty list leaves the index in [0, n); any other key leaves it unchanged; KeyIndexWraps gives the modular step |
| VehicleShowcase.KeyIndexWraps | components/VehicleShowcase.tsx:33-36 | ArrowLeft moves to (index - 1) mod n, ArrowRight to (index + 1) mod n, other keys leave the index |
| VehicleShowcase.Carousel.constructor | components/VehicleShowcase.tsx:18-19 | the carousel starts at index 0 with direction 0 |
| VehicleShowcase.Carousel.ActiveVehicle | components/VehicleShowcase.tsx:21 | a vehicle is shown exactly when the index is within the list (so nothing is shown for an empty list), and it is the vehicle at the index |
| VehicleShowcase.Carousel.Paginate | components/VehicleShowcase.tsx:23-29 | direction becomes the step; the index is the clamped step, which from a valid index is (index + step) mod n; validity is kept |
| VehicleShowcase.Carousel.SelectThumbnail | components/VehicleShowcase.tsx:231-234 | the index becomes idx; direction is 1 if idx is past the old index, else -1 (also when equal) |
| VehicleShowcase.Carousel.HandleKeyDown | components/VehicleShowcase.tsx:33-36 | ArrowLeft pages back, ArrowRight pages forward, any other key changes nothing |
| App.ActiveVehicles | App.tsx:60 | the active list is no longer than the catalog; ActiveVehiclesMembers and ActiveVehiclesAppend characterise it as the order-keeping filter on "not sold" |
| App.ActiveVehiclesMembers | App.tsx:60 | a vehicle is in the active list exactly when it is in the catalog and not sold (sold false or absent) |
| App.ActiveVehiclesAppend | App.tsx:60 | filtering a concatenation is the concatenation of the filtered parts, so relative order is kept |
| App.ActiveVehiclesCount | App.tsx:60 | with N vehicles of which K are sold, N - K remain |
| App.ActiveVehiclesNoneSold | App.tsx:60 | a list with nothing sold is kept whole |
| App.CatalogAllActive | App.tsx:60 | a catalog built from unsold records is kept whole |
| App.StockAllActive | App.tsx:60 | the page shows the whole stock, since nothing in it is sold |
| App.PageIdsDistinct | vehicleData.ts:16-101 | the page's active list has pairwise distinct ids, so the paging lemmas that need distinct ids hold for the page |
| App.FindIndexById | App.tsx:92 | the result is -1 exactly when no vehicle has the id, and otherwise the first position holding it |
| App.FindIndexOfMember | App.tsx:92 | with distinct ids, looking up the id at position j gives j |
| App.StepIndex | App.tsx:95-100 | 'next' gives (i + 1) mod n and 'prev' gives (i - 1) mod n, always in [0, n) |
| App.Navigate | App.tsx:90-102 | with no selection there is no result; any change selects a vehicle of the active list |
| App.NavigateFromMember | App.tsx:92-101 | from the vehicle at j, 'next' selects position (j + 1) mod n and 'prev' selects (j - 1) mod n |
| App.NavigateWithoutMatch | App.tsx:91-93 | with no selection, or a selected id not in the list, navigating changes nothing |
| App.ReturnTrip | App.tsx:96-100 | with distinct ids, a step one way and a step the other way return to the same vehicle |
| App.NextPrevInverse | App.tsx:96-100 | with distinct ids, 'next' then 'prev', and 'prev' then 'next', return to the same vehicle |
| App.NextTimes | App.tsx:97 | k 'next' steps from position j select position (j + k) mod n |
| App.NextFullTurn | App.tsx:97 | n consecutive 'next' steps return to the start |
| App.ArrowKeyMovesBothCursors | App.tsx:63-72 | with the overlay open, one arrow key moves the carousel to (i ± 1) mod n and the selection to position (j ± 1) mod n |
| App.ModalKey | App.tsx:64-68 | a key never opens the overlay, and any change it makes either closes it or selects an active vehicle; ModalKeyCases gives every case |
| App.ModalKeyCases | App.tsx:64-68 | keys do nothing while the overlay is closed; Escape clears the selection and leaves the carousel; other keys change nothing |
| App.Page.constructor | App.tsx:57-60 | the page starts with nothing selected, the active list filtered from the catalog, and the carousel at index 0 over that list |
| App.Page.Select | App.tsx:302 | selecting from the showcase sets the selection to the given vehicle unconditionally and opens the overlay; the carousel is unchanged |
| App.Page.SelectShowcaseVehicle | components/VehicleShowcase.tsx:152 | the details button opens the vehicle the carousel shows, which is an active vehicle |
| App.Page.Close | App.tsx:483-495 | the backdrop and the close button clear the selection and close the overlay; the carousel is unchanged |
| App.Page.NavigateVehicle | App.tsx:90-102 | the selection becomes the one `Navigate` describes; the carousel is unchanged |
| App.Page.HandleModalKeyDown | App.tsx:63-69 | the selection becomes the one `ModalKey` describes; the carousel is unchanged |
| App.Page.KeyDown | App.tsx:70 | one window keydown applies the carousel's key transition and the overlay's key transition |

## Left out

- `Intl.NumberFormat` internals: only dot-grouping of whole naturals is modelled. The space after "R$" is an opaque constant (U+00A0).
- Negative prices and mileages: `RawVehicle.price` and `km` are naturals, so the formatting of negative numbers is not modelled. The discount and badge lemmas do take any integer price.
- Floating-point rounding of `Math.round` on the float quotient: the discount is the exact rational round-half-up, so float tie cases are not modelled.
- Number width: prices, FIPE values and mileages are JavaScript doubles, which hold integers exactly only up to 2^53. The grouping and the discount are modelled on exact unbounded integers, so values beyond 2^53 are not modelled.
- React effect registration, listener cleanup, re-render timing and stale closures: each key press or click is one atomic transition. The list the carousel and overlay read is the same constant active list on every render.
- The `useEffect` calls (App.tsx:63-72, components/VehicleShowcase.tsx:32-39) are modelled as the methods they call on each event. Listener order does not matter, because the two listeners change disjoint state.
- VehicleShowcase.Carousel.Paginate: requires the step to be -1 or 1, the only values its callers pass. The clamping for other steps is not modelled.
- VehicleShowcase.Carousel.SelectThumbnail: requires idx to be a position of the list, since thumbnails exist only for the list's positions.
- App.Page.SelectShowcaseVehicle: requires the carousel to show a vehicle, since the details button is rendered only then.
- JSX markup, framer-motion animation and styling, which is view code. The direction field is kept but its only use, picking the slide animation, is not modelled.
- `components/FluidBackground.tsx` and `components/PlaystationBackground.tsx` (randomness and canvas animation), and `components/ArtistCard.tsx` (view code). These are not part of this model.
- `services/geminiService.ts`: a network client around an external SDK. It is not part of this model.
- The WhatsApp and Maps links (App.tsx:22-26, 591; components/VehicleShowcase.tsx:158): they depend on `encodeURIComponent`, a foreign call.
- `scrollToSection` (App.tsx:75-88): DOM geometry and window scrolling.
- The mobile menu state and the scroll-driven hero transforms in App.tsx: view state with no logic.

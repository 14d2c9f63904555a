# Logistix core, modelled in Dafny

Logistix is a small inventory and purchasing web application. This project
models its three pieces of pure logic:

- **Item listing** (`Valuation`, over the entities in `Inventory`). The
  listing loader filters items by name when a search is given. It then folds
  each item's versions and their per-warehouse stock rows into a summary
  `{id, name, totalUnits, totalValue}`. A row's value is its quantity times
  its version's unit cost, where unit cost is
  `unitPrice + serviceCost + taxCost - deductibleTaxCost`.
- **Request authentication** (`Auth`). A request without a session is
  redirected to `/auth`. The redirect carries the original path and query
  and, when non-empty, the shop. A request with a session upserts the
  provider's user into the user table, keyed by id.
- **Sidebar** (`Sidebar`). It covers the fixed navigation list, the rule
  for highlighting the active entry, the label shown for the account, and
  the pinned/hovered expand state.

`Optional` holds `Opt`, a value that may be missing. `Text` holds the string operations: `startsWith`,
substring search and ASCII case mapping.

Each fold is a left fold, recursing on the last element, as JavaScript's
`reduce` is. It is proved equal to an independent reference: the flat list
of every stock row of every version, summed from the right
(`Valuation.TotalUnitsIsFlatSum`, `Valuation.TotalValueIsFlatSum`).

Money is an exact `real` and quantities are unbounded `int`s. The database,
the identity provider and the clock do not appear. Their results are
parameters: the item list the store returned, the session user (or none),
the current table, and the request URL.

The upsert does not always overwrite the names. `user_metadata?.first_name`
is `undefined` when the metadata lacks the key, and the store leaves a column
untouched when the update hands it `undefined`. So an absent name keeps the
stored one, a JSON `null` clears it, and a string replaces it
(`Auth.MetaValue`, `Auth.SyncUser`). The email is always overwritten.

## Model

| member | source | states |
|---|---|---|
| Valuation.SearchTerm | app/routes/items._index.tsx:20 | A missing `search` parameter reads as the empty search; a present one is used as given |
| Valuation.FilterByName | app/routes/items._index.tsx:23-30 | An empty search returns the list unchanged. Otherwise an item is kept iff its name contains the search ignoring case, each kept item as often as in the input, in the input's order |
| Valuation.KeepMatching | app/routes/items._index.tsx:24-29 | Keeps exactly the items whose name matches, each as often as in the input, as an order-preserving subsequence |
| Valuation.NameMatchesIff | app/routes/items._index.tsx:25-28 | `NameMatches`: a name matches iff the lower-cased search occurs at some position of the lower-cased name |
| Valuation.NameMatchesIgnoresCase | app/routes/items._index.tsx:25-28 | Upper-casing the name or the search does not change whether it matches |
| Valuation.EmptySearchMatchesEverything | app/routes/items._index.tsx:23-30 | The empty search matches every name, so skipping the filter for it agrees with applying it |
| Text.ContainsIffOccurs | app/routes/items._index.tsx:26 | The substring scan succeeds exactly when the search occurs at some position of the name |
| Valuation.RowFoldIsFlatSum | app/routes/items._index.tsx:47-59 | The inner reduce over a version's rows equals the sum of quantities, and the sum of quantity times unit cost, over those rows |
| Valuation.TotalUnitsIsFlatSum | app/routes/items._index.tsx:44-49 | `TotalUnits`, the outer and inner reduce, equals the sum of quantity over every row of every version |
| Valuation.TotalValueIsFlatSum | app/routes/items._index.tsx:51-61 | `TotalValue` equals the sum of quantity times unit cost over every row, each row priced at its own version's unit cost |
| Valuation.TotalsAdditive | app/routes/items._index.tsx:44-61 | Splitting the version list in two splits totalUnits and totalValue into the sums of the two parts |
| Valuation.TotalsIgnoreOrderOfParts | app/routes/items._index.tsx:44-61 | Swapping the two parts of the version list changes neither total |
| Valuation.NoStockIsZero | app/routes/items._index.tsx:44-61 | No versions, or versions without stock rows, give totalUnits 0 and totalValue 0 |
| Valuation.TotalsNonNegative | app/routes/items._index.tsx:44-61 | Non-negative quantities give totalUnits >= 0; totalValue >= 0 needs every unit cost >= 0 as well |
| Valuation.NegativeUnitCostGivesNegativeValue | app/routes/items._index.tsx:53-58 | A deductible tax above the other costs can make the value negative even with non-negative quantities: one unit at unit cost -1.0 is worth -1.0 |
| Valuation.ItemsWithStats | app/routes/items._index.tsx:43-69 | One summary per item: same length, same order, same id and name, with that item's totalUnits and totalValue |
| Valuation.Loader | app/routes/items._index.tsx:18-72 | Echoes the search. The summaries are, in input order, those of the items that pass the filter: every listed summary is of such an item, every such item is listed, there are as many as filtered items, and the list is a subsequence of the per-item summaries, equal to them for an empty search |
| Valuation.BlueMopsStats | app/routes/items._index.tsx:43-69 | For the seeded Blue Mops item (100 units at 5.5/0.3/0.5/0.2, 50 at 6.2/0.35/0.55/0.25): totalUnits 150, totalValue 952.5 |
| Auth.SyncUser | app/lib/auth.server.ts:32-55 | Afterwards the table holds exactly one row for the user's id and other rows are unchanged. The email is overwritten. A name present in the metadata overwrites, an absent one keeps the stored value. A truthy shop is stored. Otherwise the row keeps its shop, and a new row gets none |
| Auth.CreateUser | app/lib/auth.server.ts:45-51 | A new row takes the session's id and email; a name is set iff the metadata holds a string for it, and then to that string; the shop is set iff the metadata shop is truthy, and then to that shop |
| Auth.UpdateUser | app/lib/auth.server.ts:38-43 | An update keeps the id and overwrites the email; a name is replaced by an incoming string, cleared by JSON null and kept when absent; a truthy shop is written and otherwise the stored shop is kept, so a stored shop is never cleared |
| Auth.SyncIdempotent | app/lib/auth.server.ts:36-52 | Syncing the same login twice stores what syncing it once does |
| Auth.SyncAll | app/lib/auth.server.ts:32-55 | A run of logins leaves the table keyed by id, holding the old ids plus every login's id; the rows of users who did not log in are unchanged |
| Auth.ShopNeverCleared | app/lib/auth.server.ts:33-42 | Once a user has a shop, no sequence of later logins leaves them without one |
| Auth.GetParam | app/lib/auth.server.ts:12 | Reading a query parameter yields nothing iff no parameter has that name, and otherwise the value of the first parameter with that name |
| Auth.AuthRedirect | app/lib/auth.server.ts:10-21 | The target path is `/auth`. Its first parameter is `redirect` = pathname + search. `shop` appears iff the request's first shop value is non-empty, and then it carries that value. No other parameter appears: the list has two entries with a shop and one without |
| Auth.RequireUser | app/lib/auth.server.ts:6-30 | Redirects iff there is no session, to exactly the target the redirect rule builds: `/auth` with the return path, and `shop` iff the request had a non-empty one. Otherwise it returns the user and table of the keyed upsert: the user stored under its id, other rows unchanged, a truthy shop stored and otherwise the stored shop kept |
| Auth.RedirectExample | app/lib/auth.server.ts:15-21 | A deep link with a shop yields `/auth` with redirect and shop; an empty shop value is dropped |
| Sidebar.IsActive | app/components/sidebar.tsx:116 | An entry is active iff the path equals its href, or continues it after a `/` |
| Sidebar.ActiveOnSubpath | app/components/sidebar.tsx:116 | href + "/" + anything activates href |
| Sidebar.NotActiveOnRawPrefix | app/components/sidebar.tsx:116 | A path that extends href with a character other than `/` does not activate it |
| Sidebar.ActiveExamples | app/components/sidebar.tsx:116 | `/items` and `/items/42` activate `/items`; `/itemsX` and `/item` do not |
| Sidebar.ActiveNested | app/components/sidebar.tsx:116 | Two hrefs active on the same path are equal or one lies below the other |
| Sidebar.NavWellFormed | app/components/sidebar.tsx:33-40 | The fixed list has six entries with distinct hrefs, none below another |
| Sidebar.AtMostOneActive | app/components/sidebar.tsx:109-117 | Whatever the path, at most one navigation entry is highlighted |
| Sidebar.DisplayName | app/components/sidebar.tsx:48-50 | With both names non-empty the label is the first name, a space, then the last name; otherwise it is the email |
| Sidebar.DisplayNameRecoversNames | app/components/sidebar.tsx:48-50 | When the first name has no space, both names are recovered by cutting the label at its first space |
| Sidebar.Step | app/components/sidebar.tsx:56-98 | Pointer enter and leave set hovered and leave pinned alone. The pin button negates pinned exactly when the panel is expanded (the button is hidden otherwise) and leaves hovered alone |
| Sidebar.PinTwiceRestores | app/components/sidebar.tsx:92 | With the pointer on the panel, pressing the pin button twice restores the panel |
| Sidebar.PinnedStaysExpanded | app/components/sidebar.tsx:52 | A pinned panel stays pinned and expanded through any pointer events |
| Sidebar.PanelExpansion | app/components/sidebar.tsx:28-97 | `IsExpanded`: collapsed at first render; expanded after the pointer enters; after it leaves, expanded iff pinned; a press on the visible button collapses only an unhovered panel it unpins; a collapsed panel ignores pin presses |
| Sidebar.UnpinWithoutHoverHidesButton | app/components/sidebar.tsx:91-98 | Unpinning a panel the pointer is not on collapses it, and a second press then changes nothing because the button is hidden |

## Left out

- Floating point: the source parses decimal columns to JavaScript numbers. It also sums and multiplies them in binary floating point. The model uses exact reals, so rounding error and the display formatting in `app/lib/utils.ts` are not modelled.
- Integer width: quantities are unbounded integers, not the store's 32-bit column.
- Case folding: only ASCII letters are folded. The database's insensitive match follows its own, wider, locale rules, and its treatment of wildcard characters in the search is not modelled.
- Ordering: the store returns items newest first. The model takes the list in whatever order it is given and preserves that order.
- Database, identity provider and HTTP: querying, the provider's `getUser`, response headers and cookies, and throwing the redirect are collaborators. They appear only as parameters or results.
- URL encoding: the redirect target is a path plus a parameter list. Percent-encoding it into a string, and parsing the request's query into parameters, belong to the URL library.
- Timestamps: the `updatedAt` column set on update is not modelled.
- Missing email: the source asserts the provider's email is present (`email!`). The model always has one.
- Logout, navigation and rendering in the sidebar; the sidebar's `shop` line.
- The item detail page's filtered valuation and warehouse distribution, and the inventory quantity-change action. `app/routes/items.$itemId.tsx` is not part of this model.
- Sidebar.DisplayName: takes the user the component's props declare. Four of the five pages that render the sidebar (`app/routes/dashboard.tsx:17`, `app/routes/items._index.tsx:81`, `app/routes/warehouses._index.tsx:10`, `app/routes/items.$itemId.tsx:261`) pass only a `shop`. There `user` is `undefined`, and reading `user.firstName` fails during render. The model does not represent that failure.
- Tenancy: the listing loader neither requires a signed-in user nor filters items by owner, so it lists every tenant's items. The model follows this, and `Valuation.Loader` has no user parameter.

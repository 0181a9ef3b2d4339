# Certificate table, admin table view and admin route gate

This project models three pieces of logic from a Next.js web app that issues
and verifies digital certificates.

- **The certificate table.** Two API routes list the table and add records to it.
  - `src/app/api/admin/certificates/route.ts` refuses a new record when one
    with the same `dni` (holder ID number) exists.
  - `src/app/api/certificates/search/route.ts` refuses it only when one with
    the same `dni` and the same `course` exists.
  - Both refuse a request with any of the six fields missing or empty.
  - Both insert an active record, and both list the table newest first.
  - The table is one class, `CertificateStore.CertificateTable`. It holds a
    `seq<Certificate>`, a clock and an id counter. The shared pipeline is
    `Create`, selected by a `Policy`; `AdminPost` and `SearchPost` are the
    two routes.
  - Each method is tied to the value-level function `Post`. The routes'
    promises are proved about `Post`.
- **The admin page's table view** (`src/app/admin/page.tsx`).
  - The pure logic lives in `AdminTable`: the column comparator, a sort
    proved to return a permutation ordered by the column key, the pagination
    arithmetic, the five-button page window and the check on a picked PDF.
  - The component's React state is the class `AdminPage.AdminPanel`. Each
    event handler is a method on it.
- **The route gate** (`middleware.ts`). `RouteGate.Middleware` is one
  function. It maps a path, the cookies and a token verifier to a redirect
  to `/` or a pass-through.

Dates are abstract integers. `new Date(s)` is a parameter `toDate: string -> int`
of the create methods. `verifyToken` is a parameter `verify: string -> Option<Claims>`
of the gate. The store's `createdAt` stamps strictly increase, so newest first
is reverse insertion order. `CertificateTable.List` proves that reversed
order is strictly descending in `createdAt` and a permutation of the table.

The duplicate lookup matches every stored record, active or not: neither
route's query has an `isActive` condition, and the model follows the code
rather than a rule restricted to active records. Neither create route reads an
attached file (both read a JSON body), so file type and size are validated
only on the page, by `AdminTable.FileAlert`.

## Model

| member | source | states |
|---|---|---|
| CertificateStore.FindDuplicate | src/app/api/certificates/search/route.ts:37-45 | The lookup returns the index of the first record that collides with (`dni`, `course`) under the policy. It returns `None` exactly when no record collides. `isActive` is not consulted. |
| CertificateStore.Post | src/app/api/admin/certificates/route.ts:30-63 | A form with any of the six fields missing or empty gets 400 "Todos los campos son requeridos" and leaves the table unchanged, whatever the table holds. Otherwise a colliding record, active or not, gives 400 with the policy's duplicate message and an unchanged table. Otherwise the result is 201 "Certificado creado exitosamente", and exactly the returned record is appended. That record carries the six submitted values, no PDF, `isActive = true`, the next id and the next stamp. |
| CertificateStore.PostPreservesUnique | src/app/api/certificates/search/route.ts:37-62 | If no two records collide under the policy before a request, none collide after it. |
| CertificateStore.PostKeepsStoredRecords | src/app/api/admin/certificates/route.ts:48-58 | A request leaves all stored records in place. The table grows by at most one record at the end. It is unchanged exactly when the response is a 400. |
| CertificateStore.PostKeepsPairsUnique | src/app/api/admin/certificates/route.ts:37-58 | Under either policy, a request keeps the (`dni`, `course`) pairs of the table unique, so both routes preserve this invariant. |
| CertificateStore.UniqueDniImpliesUniquePair | src/app/api/admin/certificates/route.ts:37-46 | A table with unique `dni` also has unique (`dni`, `course`) pairs. |
| CertificateStore.SecondCourseAccepted | src/app/api/certificates/search/route.ts:38-43 | Suppose the table holds the `dni` but not the pair. The search route then accepts the request, and afterwards `dni` is no longer unique. The admin route refuses the same request with "Ya existe un certificado con este DNI". |
| CertificateStore.NewestFirst | src/app/api/admin/certificates/route.ts:6-10 | The result has the table's length. Position `k` holds the element `k`-th from the end. The result is a permutation of the table. |
| CertificateStore.CertificateTable.constructor | src/app/api/admin/certificates/route.ts:48-58 | The table starts empty and satisfies the store invariant. The first insert receives id 0 and stamp 0. |
| CertificateStore.CertificateTable.List | src/app/api/certificates/search/route.ts:4-14 | The result is a permutation of the table. Every stored record appears, inactive ones included, and `createdAt` strictly descends. The admin route's GET at src/app/api/admin/certificates/route.ts:4-14 is the same handler. |
| CertificateStore.CertificateTable.Create | src/app/api/admin/certificates/route.ts:25-63 | The new response and table are `Post` of the old table, the next id and the next stamp. An invariant holds throughout: stamps and ids strictly increase and stay below the counters, and no two records share both `dni` and `course`. The policy's uniqueness is preserved. A 400 changes nothing in the store, and a 201 advances the clock and the id counter by one each. |
| CertificateStore.CertificateTable.AdminPost | src/app/api/admin/certificates/route.ts:25-63 | The route runs `Post` with the `dni`-only policy. Unique `dni` is preserved, and so is uniqueness of the pair. |
| CertificateStore.CertificateTable.SearchPost | src/app/api/certificates/search/route.ts:25-67 | The route runs `Post` with the (`dni`, `course`) policy, and uniqueness of the pair is preserved. |
| TextOrder.Lower | src/app/admin/page.tsx:79-80 | `toLowerCase()` keeps the length, turns every ASCII capital into its lower-case letter and changes no other character. |
| TextOrder.LowerIdempotent | src/app/admin/page.tsx:79-80 | Lower-casing an already lower-cased string changes nothing. |
| TextOrder.Less | src/app/admin/page.tsx:83-86 | JavaScript's string `<`: a string is never less than itself or one of its own prefixes. |
| TextOrder.LessIrreflexive | src/app/admin/page.tsx:83-86 | No string is less than itself under JavaScript's string `<`. |
| TextOrder.LessTransitive | src/app/admin/page.tsx:83-86 | JavaScript's string `<` is transitive. |
| TextOrder.LessTotal | src/app/admin/page.tsx:83-86 | Two different strings are always ordered one way or the other. |
| TextOrder.LessAsymmetric | src/app/admin/page.tsx:83-86 | `a < b` excludes `b < a`. |
| TextOrder.ProperPrefixIsLess | src/app/admin/page.tsx:83-86 | A proper prefix is smaller, so the order extends Dafny's prefix relation. |
| AdminTable.KeyOf | src/app/admin/page.tsx:72-81 | The three date columns compare by timestamp and every other column by text. A text key is lower-cased: it holds no ASCII capital. |
| AdminTable.NextDirection | src/app/admin/page.tsx:66 | A click on the column already sorted flips the direction. A click on any other column sorts ascending. |
| AdminTable.Compare | src/app/admin/page.tsx:71-88 | The comparator answers -1, 0 or 1. It answers 0 exactly when the two keys are equal, and -1 exactly when the first key strictly precedes the second in the chosen direction. |
| AdminTable.CompareConsistent | src/app/admin/page.tsx:71-88 | The comparator is antisymmetric. It returns `<= 0` exactly when the two keys are in order for the chosen direction, and that relation is total and transitive. Dates compare by timestamp; any other column compares by lower-cased text. |
| AdminTable.Insert | src/app/admin/page.tsx:71-88 | Inserting into an ordered list gives an ordered list holding the old elements plus the new one. |
| AdminTable.SortedBy | src/app/admin/page.tsx:71-90 | The sorted copy is a permutation of the list. It is ordered by the column key, ascending or descending as chosen. |
| AdminTable.NewestFirstIsInitialOrder | src/app/admin/page.tsx:37-38 | The API's list, with strictly descending `createdAt`, is already in the page's initial order (`createdAt`, `desc`). |
| AdminTable.Slice | src/app/admin/page.tsx:115 | `Array.prototype.slice` never returns more than the array. With `0 <= start <= end` it is the range clamped to the array; with `end <= start` it is empty. A negative `start` with no effective end takes the last `-start` elements. |
| AdminTable.PageItems | src/app/admin/page.tsx:113-115 | Page `p` of size `n` shows elements `[(p-1)*n, min(p*n, len))`, which is at most `n` items. A page that starts past the end shows nothing. |
| AdminTable.PageCount | src/app/admin/page.tsx:116 | `totalPages` is `ceil(len / n)`: the pages hold all `len` items, one page fewer would not, and there are no pages exactly when the list is empty. |
| AdminTable.EveryItemOnOnePage | src/app/admin/page.tsx:113-116 | Element `k` is shown on page `k / n + 1`, at position `k % n`. That page is within `1..totalPages`, and no other page's index range holds `k`. |
| AdminTable.PageWindow | src/app/admin/page.tsx:613-614 | The window holds `min(5, totalPages)` consecutive page numbers, all within `[1, totalPages]`. It includes `currentPage` whenever `1 <= currentPage <= totalPages`. It centres the current page (third button) when the page is at least 2 away from both ends. |
| AdminTable.FileAlert | src/app/admin/page.tsx:127-142 | A file is accepted exactly when its type is `application/pdf` and its size is at most 10·1024·1024 bytes. The type alert is given exactly for a non-PDF. The size alert is given exactly for a PDF over the limit. |
| AdminPage.AdminPanel.constructor | src/app/admin/page.tsx:29-46 | The initial state has empty lists, no file, page 1, 10 items per page, and sort on `createdAt` `desc`. |
| AdminPage.AdminPanel.ReceiveCertificates | src/app/admin/page.tsx:56-59 | A successful fetch sets both lists to the fetched list and changes nothing else. |
| AdminPage.AdminPanel.SortCertificates | src/app/admin/page.tsx:65-91 | The new direction is `desc` exactly when the clicked field is the current field and the direction was `asc`. The sort field becomes the clicked field and the page becomes 1. The shown list becomes a permutation of itself, ordered by the field in the new direction. |
| AdminPage.AdminPanel.TotalPages | src/app/admin/page.tsx:116 | `totalPages` is the fewest pages of `itemsPerPage` rows that hold the filtered list, and it is 0 exactly when the list is empty. |
| AdminPage.AdminPanel.CurrentItems | src/app/admin/page.tsx:112-115 | The rows shown are at most `itemsPerPage`, and they are the current page's slice of the filtered list. A page that starts past the end of the list, as after a delete on the last page, shows no rows. |
| AdminPage.AdminPanel.PageButtons | src/app/admin/page.tsx:601-628 | No buttons are drawn unless there are at least two pages. With two or more there are `min(5, totalPages)` consecutive valid page numbers, and the current page is among them when it is in range. |
| AdminPage.AdminPanel.Previous | src/app/admin/page.tsx:601-611 | The page becomes `max(1, p-1)` when the button is shown and enabled; otherwise nothing changes. A page in range stays in range. |
| AdminPage.AdminPanel.Next | src/app/admin/page.tsx:630-636 | The page becomes `min(totalPages, p+1)` when the button is shown and enabled; otherwise nothing changes. A page in range stays in range. |
| AdminPage.AdminPanel.GoToPage | src/app/admin/page.tsx:613-618 | A click on a window button sets `currentPage` to that number, which lies in `[1, totalPages]`. |
| AdminPage.AdminPanel.ChangeItemsPerPage | src/app/admin/page.tsx:333-338 | Choosing a page size sets it and resets `currentPage` to 1. |
| AdminPage.AdminPanel.HandleFileChange | src/app/admin/page.tsx:127-142 | The first picked file becomes `selectedFile` exactly when `FileAlert` accepts it. On a rejection the alert is returned and `selectedFile` is unchanged. If no file was picked, nothing happens. |
| RouteGate.Middleware | middleware.ts:4-14 | A redirect always goes to `/`. The request passes exactly when the path does not start with `/admin`, or it carries a non-empty `auth-token` cookie that the verifier accepts. |
| RouteGate.PublicPathPasses | middleware.ts:5-13 | A path without the `/admin` prefix passes, whatever the cookies. |
| RouteGate.MissingTokenRedirects | middleware.ts:6-9 | An admin path with no `auth-token` cookie, or an empty one, is redirected to `/` whatever the verifier says. |
| RouteGate.RejectedTokenRedirects | middleware.ts:8-9 | An admin path whose token the verifier rejects is redirected to `/`. |
| RouteGate.VerifiedTokenPasses | middleware.ts:8-13 | An admin path whose token verifies passes. |
| RouteGate.PlainStringPrefix | middleware.ts:5 | The prefix test is on characters: `/adminX` and `/admin` are gated, while `/Admin` and `/` are not. |
| RouteGate.DependsOnlyOnToken | middleware.ts:4-14 | Two requests give the same decision when they have the same path and the same `auth-token` cookie, or both lack it, and the verifier's acceptance of that token is the same. |

## Left out

- AdminPage.AdminPanel.SortCertificates: states a permutation ordered by the key. It does not state the order of records with equal keys, which the browser's stable sort keeps from the input.
- AdminTable.SortedBy: the same; the tie order of the insertion sort is not stated.
- Character handling: `toLowerCase` is modelled on ASCII letters only. String `<` compares Dafny characters (Unicode scalar values), not UTF-16 code units, so the two orders can differ for characters outside the Basic Multilingual Plane.
- Form fields: only as strings or absent. JSON values of other types (numbers, booleans, `null`), and their JavaScript truthiness, are not modelled.
- Date parsing: `new Date(...)`, `getTime`, `toISOString` and `toLocaleDateString` are out. An unparsable date (which makes the store throw and the route answer 500) is not modelled; `toDate` is total.
- The 500 path: database failures caught by the `catch` blocks are not modelled; each call completes.
- Concurrency: the race between the duplicate lookup and the insert is out, and each request is atomic.
- The database schema is not part of this model. `findUnique({ where: { dni } })` in the admin route works only on a unique column. If `dni` has a unique constraint, the search route's second-course insert (`SecondCourseAccepted`) would fail in the database with a 500. The model follows the route code and lets it through.
- Ids: the store's generated string ids are modelled as increasing natural numbers. `updatedAt` is stamped once, at creation, with the same stamp as `createdAt`.
- `src/lib/auth.ts` (JWT signing and verification, bcrypt) is not part of this model. `verifyToken` is a parameter, and the gate depends only on whether it returns a value.
- `src/app/api/auth/login/route.ts` and `src/app/page.tsx` are not part of this model. They are library calls, `fetch` and UI code.
- The `config.matcher` declaration (middleware.ts:16-18) is framework routing. The model applies the gate to every path.
- Update, delete, download and file naming are not part of this model, and neither is the `[id]` route's delete handler. The page's JSON-vs-FormData mismatch with the create route is out too.
- Rendering: JSX, icons, `alert`, `confirm`, `window.open`, the logout cookie write and the "Mostrando … de …" counter are out. The alert text is returned by `HandleFileChange` rather than shown.
- The browser's `File` object is reduced to its name, declared MIME type and size.

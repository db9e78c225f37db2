# Admin dashboard core, in Dafny

This project models the logic behind a Next.js admin dashboard. It covers
five parts:

- **Number formatting** (`format.dfy`, module `Format`).
  - `formatNumber` abbreviates counts of a thousand or more with a
    one-decimal mantissa and a `K` or `M` suffix.
  - `formatPercentage` renders a signed percentage with a fixed number of
    decimals.
  - Both go through JavaScript's `toFixed`, which is modelled in two halves.
    Choosing the scaled integer is a `Rounding` function the caller passes
    in. `Faithful` requires that choice to land within half a unit of the
    last place. `NearestTiesUp` is a rounding that meets that requirement.
    Rendering that integer as digits around a decimal point is concrete.
  - The rendering is proved against its inverse, `FixedValue`.
- **The shared UI store** (`dashboard_store.dfy`, module `Store`).
  - A class holds one flag, `sidebarOpen`. It starts true.
  - It changes only through `ToggleSidebar` and `SetSidebarOpen`.
- **The sidebar** (`sidebar.dfy`, module `Sidebar`).
  - Which controls are on screen for a viewport and flag: the mobile overlay
    and the hamburger button.
  - What a click on each control does to the store.
  - Which navigation entry is highlighted for a path.
  - Runs of clicks are modelled by `Run`. `Clickable` keeps a run to the
    controls that are mounted at each step. That is a superset of what a
    user can reach: the X button is hidden at the `lg:` breakpoint and up,
    and below that breakpoint the panel's X and links are slid off-screen
    while the sidebar is closed. At `lg:` and up the panel stays on screen,
    so the links remain clickable with the sidebar closed.
    The run lemmas quantify over all mounted runs, so they also cover the
    reachable ones.
- **The admin layout** (`admin_layout.dfy`, module `AdminLayout`).
  - The content column is offset only on desktop with the sidebar open.
  - Lemmas relate this offset to the sidebar's own controls.
- **The kanban board** (`task_board.dfy`, module `TaskBoard`).
  - Grouping:
    - Tasks are grouped into buckets keyed by their status string.
    - `GroupByStatus` is a loop proved against the reference filter
      `Filter`.
  - Rendering:
    - Three columns appear in a fixed order.
    - Each card gets a badge variant chosen by its priority.
    - Each card shows its assignee's initials. These are computed as
      JavaScript's `split(" ")`, then the first character of each piece,
      then `join("")`. The result is proved equal to the word-initial
      characters of the name, `WordStarts`.
  - The four sample tasks of `lib/mock-data.ts` are grouped as a worked
    example.

Whether the viewport is mobile comes from a media-query hook that is not part
of this model, so it is a parameter everywhere.

## Model

| member | source | states |
|---|---|---|
| Format.NearestTiesUpIsFaithful | lib/utils/format.ts:21 | rounding to the nearest scaled integer, ties upward, applied to the exact value, is a faithful `toFixed` rounding: it stays within half a unit of the last place |
| Format.NearestTiesUp | lib/utils/format.ts:21 | the ECMAScript `toFixed` rule on an exact value: the chosen integer n lies in (x*10^f - 0.5, x*10^f + 0.5], so a tie goes to the larger n |
| Format.NatToString | lib/utils/format.ts:10 | the decimal text of a non-negative integer is a non-empty digit string with no leading zero, and it denotes that integer (`DigitsValue` is its inverse) |
| Format.IntToString | lib/utils/format.ts:10 | `num.toString()` of an integer is optional '-' plus digits, it denotes `num`, it starts with '-' exactly when `num` is negative, and its digits have no superfluous leading zero |
| Format.FixedDigits | lib/utils/format.ts:5 | rendering a scaled integer with `f` decimals gives digits, a single point before the last `f` digits, and text that denotes that same integer; the whole part is "0" or starts with a non-zero digit |
| Format.ToFixed | lib/utils/format.ts:21 | `x.toFixed(f)` starts with '-' exactly when `x` is negative (even when it rounds to zero); the rest is fixed-point text with no superfluous leading zero whose scaled value is the rounding of abs(x) |
| Format.FormatNumber | lib/utils/format.ts:3-11 | the result ends in 'M' exactly when num >= 1000000 and in 'K' exactly when 1000 <= num < 1000000; the suffix is preceded by a one-decimal mantissa that denotes the rounding of num/1000000 or num/1000; below 1000 the result is the integer text of num, with a '-' exactly when num is negative (so 0 gives "0", never "-0"); neither the mantissa nor the integer text has a superfluous leading zero; no K or M appears before the end |
| Format.FormatNumberMantissa | lib/utils/format.ts:4-9 | for a faithful rounding, the mantissa times the unit is within half a unit of 10*num, so the mantissa is within 0.05 of num/unit |
| Format.FormatPercentage | lib/utils/format.ts:20-22 | the result starts with '+' exactly when the value is non-negative and with '-' exactly when it is negative; it ends in '%'; between them is fixed-point text with exactly `decimals` decimals and no superfluous leading zero, denoting the rounding of abs(value) |
| Format.FormatPercentageDigits | lib/utils/format.ts:20-22 | for a faithful rounding, the percentage's digits are abs(value)*10^decimals to within half a unit |
| Format.FormatNumberPlain | lib/utils/format.ts:10 | 999 renders as "999", 0 as "0", and -1500 as "-1500", because negative values take the plain branch |
| Format.FormatNumberThousands | lib/utils/format.ts:7-9 | for any faithful rounding, 1500 renders as "1.5K" and 45000 as "45.0K" |
| Format.FormatNumberMillions | lib/utils/format.ts:4-6 | for any faithful rounding, 1234567 renders as "1.2M" and 2500000 as "2.5M" |
| Format.FormatNumberBelowMillion | lib/utils/format.ts:4-9 | the branch is chosen on the raw value, so for any faithful rounding 999999 renders as "1000.0K", not "1.0M" |
| Format.FormatPercentageExamples | lib/utils/format.ts:20-22 | with the default of one decimal, 5.25 renders as "+5.3%" and -5.25 as "-5.3%" (5.25 is exact in binary, so ties upward is what `toFixed` does) |
| Format.FormatPercentageNegativeZero | lib/utils/format.ts:21 | -0.01 renders as "-0.0%": the sign comes from the value, not from the rounded digits |
| Store.DashboardStore.constructor | store/dashboard-store.ts:10 | a new store has the sidebar open |
| Store.DashboardStore.ToggleSidebar | store/dashboard-store.ts:11 | the flag becomes the negation of its old value |
| Store.DashboardStore.SetSidebarOpen | store/dashboard-store.ts:12 | the flag becomes the given value, whatever it was |
| Store.ToggleTwice | store/dashboard-store.ts:11 | two toggles restore the flag |
| Store.SetTwice | store/dashboard-store.ts:12 | setting a value is idempotent |
| Store.SetThenToggle | store/dashboard-store.ts:11-12 | a set followed by a toggle leaves the opposite of the value set |
| Sidebar.OverlayShown | components/layouts/sidebar.tsx:36 | the overlay is mounted when the viewport is mobile and the sidebar is open |
| Sidebar.MenuButtonShown | components/layouts/sidebar.tsx:102 | the hamburger is mounted when the viewport is mobile and the sidebar is closed |
| Sidebar.Step | components/layouts/sidebar.tsx:39-104 | the flag after one click: the overlay sets it false (:39), the X and hamburger toggle it (:55, :104), a link sets it false on mobile and leaves it alone on desktop (:77) |
| Sidebar.IsActive | components/layouts/sidebar.tsx:66 | an entry of the six-entry `Navigation` table (:19-26) is highlighted when the path equals its href |
| Sidebar.View | components/layouts/sidebar.tsx:36-110 | the overlay is shown exactly on mobile with the sidebar open and the hamburger exactly on mobile with it closed, so on mobile exactly one of them is shown and on desktop neither is; entry i is highlighted exactly when the path equals its href; at most one entry is highlighted |
| Sidebar.HrefsDistinct | components/layouts/sidebar.tsx:19-26 | no two navigation entries share an href |
| Sidebar.AtMostOneActive | components/layouts/sidebar.tsx:65-66 | two highlighted entries for the same path are the same entry |
| Sidebar.ActiveIsExactMatch | components/layouts/sidebar.tsx:66 | highlighting is exact string equality: "/admin/content" highlights Content and not Dashboard, and a deeper path highlights nothing |
| Sidebar.OverlayClickCloses | components/layouts/sidebar.tsx:36-41 | the overlay can be clicked only while it is mounted (mobile, open), and the click closes the sidebar; the hamburger then replaces the overlay |
| Sidebar.MenuButtonClickOpens | components/layouts/sidebar.tsx:102-110 | the hamburger is shown only while the sidebar is closed, so its toggle always opens the sidebar; the overlay then replaces it |
| Sidebar.CloseButtonToggles | components/layouts/sidebar.tsx:54-60 | the X button flips the flag in both directions, and two clicks restore it |
| Sidebar.NavLinkClick | components/layouts/sidebar.tsx:77 | a link click closes the sidebar on mobile and leaves the flag unchanged on desktop |
| Sidebar.DesktopRunParity | components/layouts/sidebar.tsx:36-110 | on desktop, after any run of clicks on mounted controls, the flag is flipped exactly when the X button was clicked an odd number of times |
| Sidebar.MobileRunLast | components/layouts/sidebar.tsx:36-110 | on mobile, a run of clicks on mounted controls that ends on the overlay or a link leaves the sidebar closed; one that ends on the hamburger leaves it open |
| Sidebar.Click | components/layouts/sidebar.tsx:39-104 | dispatching a click through the store's operations leaves the flag equal to the pure step function of the old flag |
| AdminLayout.ContentOffset | app/admin/layout.tsx:23 | the content column gets the panel-width padding when the viewport is not mobile and the sidebar is open |
| AdminLayout.Render | app/admin/layout.tsx:14-24 | rendering reads the store and changes nothing; the content is offset exactly on desktop with the sidebar open |
| AdminLayout.ShellPartition | app/admin/layout.tsx:20-24 | the overlay, the hamburger and the content offset never appear together; all three are absent exactly on desktop with the sidebar closed |
| AdminLayout.OpenSidebarEffect | app/admin/layout.tsx:23 | opening the sidebar brings in the content offset on desktop and the overlay on mobile; with the sidebar closed, neither appears |
| AdminLayout.DesktopOffsetAfterRun | app/admin/layout.tsx:14-24 | on desktop, after a run of clicks, the content offset has flipped exactly when the X button was clicked an odd number of times |
| AdminLayout.MobileNeverOffset | app/admin/layout.tsx:23 | on mobile the content is never offset, whatever the flag |
| TaskBoard.TablesAreOneToOne | components/widgets/task-board.tsx:12-22 | distinct priorities get distinct badge variants; distinct statuses get distinct bucket keys; every status has exactly one column |
| TaskBoard.PriorityVariant | components/widgets/task-board.tsx:12-16 | the badge variant of a priority: low is secondary, medium is warning, high is destructive |
| TaskBoard.StatusLabel | components/widgets/task-board.tsx:18-22 | the column heading of a status; `Columns` lists the statuses in the table's order, todo, in-progress, done |
| TaskBoard.Filter | components/widgets/task-board.tsx:25-31 | a bucket is no longer than the input and holds only input tasks with its key |
| TaskBoard.FilterMembership | components/widgets/task-board.tsx:25-31 | a task is in a bucket exactly when it is in the input and has that bucket's key |
| TaskBoard.FilterAppend | components/widgets/task-board.tsx:25-31 | grouping preserves input order: the bucket of a concatenation is the concatenation of the buckets |
| TaskBoard.FilterMultiplicity | components/widgets/task-board.tsx:25-31 | a bucket holds a task as many times as the input does when the key matches, and zero times otherwise |
| TaskBoard.FilterEmpty | components/widgets/task-board.tsx:25-31 | the bucket of a key that no task has is empty |
| TaskBoard.FilterPartition | components/widgets/task-board.tsx:25-31 | the three buckets together are a permutation of the input: same multiset and total length |
| TaskBoard.GroupByStatus | components/widgets/task-board.tsx:25-31 | the `reduce` builds a grouping (`IsGrouping`): a bucket for exactly the keys of those tasks present, each bucket the in-order filter of the input by its key |
| TaskBoard.GroupingIsUnique | components/widgets/task-board.tsx:25-31 | the grouping of a task list is unique |
| TaskBoard.AbsentStatusHasNoBucket | components/widgets/task-board.tsx:25-44 | a status that no task has gets no bucket, so its column's optional lookup yields no cards |
| TaskBoard.Cards | components/widgets/task-board.tsx:44 | the cards of a column are its bucket, or none when the optional lookup finds no bucket |
| TaskBoard.Board | components/widgets/task-board.tsx:40-44 | one column per entry of the label table, in its order, each with its heading and cards |
| TaskBoard.BoardOfGrouping | components/widgets/task-board.tsx:40-44 | the board has the columns "To Do", "In Progress" and "Done" in that order, each holding exactly those tasks with its status, in input order |
| TaskBoard.BoardShowsEveryTask | components/widgets/task-board.tsx:40-67 | every task appears on the board exactly once |
| TaskBoard.BoardIgnoresOtherKeys | components/widgets/task-board.tsx:40-44 | buckets under any key other than the three known ones never reach the screen |
| TaskBoard.Split | components/widgets/task-board.tsx:61 | `split(" ")` yields at least one piece and no piece holds a space |
| TaskBoard.SplitJoin | components/widgets/task-board.tsx:61 | joining the pieces of a split with " " gives back the original string |
| TaskBoard.JoinSplit | components/widgets/task-board.tsx:61 | splitting a join of space-free words gives back the words |
| TaskBoard.WordStarts | components/widgets/task-board.tsx:61 | the reference for initials holds no space and is no longer than the name |
| TaskBoard.FirstChars | components/widgets/task-board.tsx:61 | the first character of each piece, joined; an empty piece's undefined first character joins as nothing |
| TaskBoard.Initials | components/widgets/task-board.tsx:61 | split at spaces, then first characters; equal to the reference `WordStarts` of the name |
| TaskBoard.InitialsAreWordStarts | components/widgets/task-board.tsx:61 | split, first characters and join give exactly the non-space characters that start the name or follow a space |
| TaskBoard.AssigneeInitials | components/widgets/task-board.tsx:58-61 | a badge is shown exactly when the assignee is present and non-empty, and it holds the word-initial characters of the name, with no spaces |
| TaskBoard.InitialsOfWords | components/widgets/task-board.tsx:61 | a name made of space-free words gets the first character of each non-empty word |
| TaskBoard.InitialsOfTwoWords | components/widgets/task-board.tsx:61 | "John Doe" gets "JD" |
| TaskBoard.InitialsSkipEmptyPieces | components/widgets/task-board.tsx:61 | a doubled space gives an empty piece whose missing first character adds nothing: "John  Doe" also gets "JD" |
| TaskBoard.NoAssigneeNoInitials | components/widgets/task-board.tsx:58 | no badge when there is no assignee or the assignee is the empty string |
| TaskBoard.FourTasksFilters | lib/mock-data.ts:160-195 | four tasks with the sample statuses (in progress, to do, to do, done) split into the buckets [2, 3], [1] and [4], whatever their other fields |
| TaskBoard.FourTasksKeys | lib/mock-data.ts:160-195 | those four tasks produce exactly the keys "todo", "in-progress" and "done" |
| TaskBoard.MockTasksGrouping | lib/mock-data.ts:160-195 | the sample tasks group as todo = tasks 2 and 3, in-progress = task 1, done = task 4 |

## Left out

- `formatCurrency`, `formatDate` and `formatRelativeTime` (lib/utils/format.ts:13-32) are thin wrappers around `Intl.NumberFormat` and date-fns. Those libraries are not part of this model.
- Format.ToFixed: values are exact reals, not binary doubles. `x`, `value` and `num / unit` are the exact quotients. The scaled integer that `toFixed` picks is a `Rounding` parameter, and the digit-level results hold for any rounding that is `Faithful`. Two consequences follow. First, a double that lies just off a decimal tie is not distinguished from the tie: 1150 / 1000 is the double 1.149999…, so JavaScript prints "1.1K" where ties upward on the exact 1.15 gives "1.2K". Second, with many decimals `toFixed` prints the double's binary expansion, e.g. "0.10000000000000000555" for 0.1 with 20 decimals, which no faithful rounding of the exact 0.1 produces.
- Format.ToFixed: exponential notation for magnitudes of 1e21 and above is not modelled. `toFixed` truncates its digit count toward zero and throws a `RangeError` when the truncated count is below 0 or above 100 (or is not finite). The model takes a `nat` count with a precondition of at most 100 instead.
- Format.FormatNumber: `num` is an integer. Counts are what the callers pass. A fractional value below 1000, rendered by `Number.prototype.toString`, is not modelled. Neither is the loss of precision for large magnitudes. Below -2^53 the plain branch prints the shortest digits that identify the double, padded with zeros: -(2**64) gives "-18446744073709552000". The model prints the exact integer.
- Format.FormatPercentage: the value is a real, so JavaScript's negative zero, which would render as "+0.0%", has no counterpart.
- Format.FormatPercentage: NaN, which renders as "NaN%", and the infinities, which render as "+Infinity%" and "-Infinity%", are not reals and are not modelled.
- Format.FormatPercentage: `decimals` is a `nat` of at most 100. `toFixed` first truncates `decimals` toward zero, so -0.5 acts as 0 and 100.5 as 100. A truncated count below 0 or above 100, or a non-finite one, throws a `RangeError`. Neither the truncation nor the error is modelled.
- Format.IntToString: `num.toString()` switches to exponential notation for magnitudes of 1e21 and above, i.e. for num <= -1e21 in the plain branch of `formatNumber`. The model prints every digit. Likewise, for magnitudes above 2^53, `toString` prints the shortest digits that identify the double, padded with zeros: -(2**64) gives "-18446744073709552000". The model prints the exact integer.
- TaskBoard.Initials: `n[0]` takes a UTF-16 code unit, while a Dafny `char` is a whole Unicode scalar value. For a word that starts with a character outside the Basic Multilingual Plane, JavaScript yields a lone surrogate where the model yields the whole character.
- The media-query hook `useIsMobile` is not part of this model. Its result is a parameter. Other hooks (counters, intersection, scroll progress) are outside the core.
- Styling is left out: the `lg:` breakpoint classes, the panel's translate classes, the transition classes, icons and the static footer. The model keeps only which elements are mounted, which entry is highlighted, and what clicks do.
- React's re-rendering on store changes and zustand's subscription mechanism are not modelled. A store is a single object whose flag the click methods update.
- A task's `dueDate` is left out because the board never renders it. Titles and descriptions are carried as plain data.
- The magnetic button, animated background and the page components are presentation only and are not modelled.

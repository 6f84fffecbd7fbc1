# YouTube channel dashboard: aggregation and table sorting

The dashboard has two parts, and this project models the logic of both.

**Backend.** The Flask endpoint `/api/videos` asks the YouTube Data API about one
channel. It turns every video on every page of search results into a record
(title, description, thumbnail, publication date, views, likes, id, watch URL,
duration), adds up the views, sorts the records most viewed first, and returns
them together with a channel summary.

**Frontend.** The React component `App` shows the records in a table. Clicking
the title or the views header re-sorts the table on that column; the likes and
date headers have no click handler. Clicking a column that is not the active
one sorts ascending. Clicking the active column while it is ascending switches
to descending.

The model has five modules:

- `Api` (`api.dfy`): the JSON shape the two sides share, namely the video
  record, the channel summary, the response, and an `Option` for absent values.
- `Backend` (`backend.dfy`): the aggregation in `get_videos`.
  - The outer paging loop and the inner loop over the items of one page are
    methods with loop invariants.
  - The records built so far always equal the records of the items fetched so
    far, and the running total always equals the sum of their views.
  - The final response is proved to be a reordering of those records, most
    viewed first. Its total is the sum of its own records' views, and every
    record's URL is the watch URL of its own id.
- `TableView` (`table.dfy`): the `App` component's state as a class, and the
  click handler `sortData` as a method that updates `sortConfig` and `videos`.
  - The comparator is proved antisymmetric, and it returns 0 exactly on equal
    fields.
  - It induces a total preorder, so the handler's result is a reordering that
    is sorted in the chosen direction.
  - Any two results agree on the column's value at every position, so only
    the order of ties is open; with pairwise distinct values the result is
    unique.
- `Lexicographic` (`lexicographic.dfy`): JavaScript's `<` on strings, proved to
  be a strict total order.
- `Sorting` (`sorting.dfy`): the library sorts that both sides call
  (`Array.prototype.sort` with a comparator, `list.sort` with a key).
  - They are modelled by one insertion sort over an arbitrary "may come before"
    relation.
  - The sort is proved to be a permutation of its input, ordered whenever the
    relation is a total preorder.

The YouTube client calls are not modelled. `GetVideos` takes their results as
parameters: the channel's name and statistics, plus one `Page` per round of the
paging loop. A `Page` holds the ids found on one search page and the detailed
items returned for them.

## Model

| member | source | states |
|---|---|---|
| Backend.ChannelSummary | my-app/backend/app.py:110-115 | the summary carries the channel's name, and each of total views, subscribers and video count is the statistic when it is present and 0 when it is absent |
| Backend.CountOrZero | my-app/backend/app.py:88-89 | a statistic read with a default is its value when present and 0 when absent |
| Backend.ToRecord | my-app/backend/app.py:84-101 | a record takes the item's views and likes, or 0 for either one when it is absent; its `videoId` is the item's id; its `youtubeUrl` is the watch prefix followed by that id; title, description, thumbnail, publication date and duration are copied from the item |
| Backend.RecordUrlRoundTrip | my-app/backend/app.py:99 | reading the id back out of a record's watch URL (with the inverse `VideoIdOfUrl`, which strips the watch prefix) yields exactly the record's `videoId`, so the URL identifies its video |
| Backend.Records | my-app/backend/app.py:83-101 | one record per item |
| Backend.RecordsAt | my-app/backend/app.py:83-101 | record `k` is the record of item `k`, so the order of the items is kept |
| Backend.RecordsAppend | my-app/backend/app.py:83-101 | the records of two runs of items, one after the other, are the records of the joined run |
| Backend.Contributed | my-app/backend/app.py:77-83 | a page contributes the detailed items fetched for its ids, and nothing when it has no ids; `CollectStep` carries this into the collected records |
| Backend.SumViewsAppend | my-app/backend/app.py:102 | the view total of two lists one after the other is the sum of their totals |
| Backend.SumViewsRemove | my-app/backend/app.py:102 | taking one record out of a list takes its views out of the total |
| Backend.SumViewsPermutation | my-app/backend/app.py:107 | reordering the records, as the final sort does, leaves the view total unchanged |
| Backend.SortByViewsDescending | my-app/backend/app.py:107 | the sorted list is a permutation of the input, of the same length, in which no record has fewer views than a later one |
| Backend.ReorderedRecords | my-app/backend/app.py:107 | any reordering of the collected records keeps their number, their view total, and every record's link to its own watch URL |
| Backend.AppendItems | my-app/backend/app.py:83-102 | the inner loop appends the records of the page's items in order, and afterwards the running total equals the sum of the views of all records collected |
| Backend.CollectStep | my-app/backend/app.py:73-104 | one round of the paging loop leaves the collected records equal to the records of all items fetched up to and including that page: the records of earlier pages followed by those of the items this page contributes, and nothing for a page with no ids |
| Backend.GetVideos | my-app/backend/app.py:62-118 | the response carries the channel summary. Its videos are a permutation of the records of all fetched items, one per item, most viewed first, each linking to its own watch URL. Its `totalViews` is the sum of those videos' views |
| Sorting.Sort | my-app/backend/app.py:107 | the library sort returns a permutation of its input of the same length |
| Sorting.SortSorted | my-app/src/App.jsx:38-42 | when the comparison is a total preorder, the library sort orders every element before every later one |
| Lexicographic.StrLess | my-app/src/App.jsx:39-40 | JavaScript `<` on two strings: never true of equal strings, and always true when the first is a proper prefix of the second |
| Lexicographic.StrLessIrreflexive | my-app/src/App.jsx:39-40 | no string is less than itself under `<` |
| Lexicographic.StrLessAsymmetric | my-app/src/App.jsx:39-40 | of two strings, at most one is less than the other |
| Lexicographic.StrLessTransitive | my-app/src/App.jsx:39-40 | string `<` is transitive |
| Lexicographic.StrLessTotal | my-app/src/App.jsx:39-40 | of two different strings, one is less than the other |
| TableView.ValueLess | my-app/src/App.jsx:39-40 | `a[key] < b[key]` on the values of one column: only ever true of two different values of the same kind (text or count) |
| TableView.ValueLessIrreflexive | my-app/src/App.jsx:39-40 | no field value is less than itself |
| TableView.ValueLessAsymmetric | my-app/src/App.jsx:39-40 | `a[key] < b[key]` and `a[key] > b[key]` never both hold |
| TableView.ValueLessTransitive | my-app/src/App.jsx:39-40 | `<` on field values is transitive |
| TableView.FieldValuesComparable | my-app/src/App.jsx:39-41 | when two videos differ on a column, the comparator's first or second test fires, so it returns 0 only on equal values |
| TableView.Compare | my-app/src/App.jsx:38-42 | the comparator returns -1, 0 or 1; it is negative exactly when `a`'s value is below `b`'s (ascending) or above it (descending), and positive exactly in the opposite case. `CompareAntisymmetric`, `CompareZero` and `PrecedesTotalPreorder` state its properties |
| TableView.CompareAntisymmetric | my-app/src/App.jsx:38-42 | the comparator returns -1, 0 or 1, and swapping its arguments negates the result |
| TableView.CompareZero | my-app/src/App.jsx:41 | the comparator returns 0 if and only if neither value is less than the other, which holds if and only if the two values are equal |
| TableView.CompareNonPositive | my-app/src/App.jsx:39-40 | `a` may go before `b` exactly when `b`'s value is not below `a`'s (ascending) or not above it (descending) |
| TableView.PrecedesTotalPreorder | my-app/src/App.jsx:38-42 | the comparator is a consistent comparison: total and transitive |
| TableView.SortedByPrecedes | my-app/src/App.jsx:38-42 | a list that is ordered by the comparator is sorted on the column in the chosen direction |
| TableView.SortedCopy | my-app/src/App.jsx:38-42 | the sorted copy is a permutation of the table's videos that is sorted ascending or descending on the clicked column, as the direction says |
| TableView.StrictPairsFollowDirection | my-app/src/App.jsx:38-42 | in a sorted table, a video with a smaller value stands before one with a larger value when ascending, and after it when descending |
| TableView.SortedPermutationSameFirst | my-app/src/App.jsx:38-42 | two sorted reorderings of one list whose values are distinct begin with the same video |
| TableView.SortedPermutationSameValues | my-app/src/App.jsx:38-42 | any two sorted reorderings of one list carry the same value on the column at every position, so the comparator decides everything but the order of equal values |
| TableView.SortedPermutationUnique | my-app/src/App.jsx:38-42 | when the column's values are distinct, the sorted reordering is fully determined, so only ties are left to the library |
| TableView.ViewsHeaderClickAfterLoad | my-app/src/App.jsx:10-44 | take videos with 30, 20 and 10 views under the initial configuration; clicking "views" picks ascending and orders them 10, 20, 30 |
| TableView.NextDirection | my-app/src/App.jsx:32-35 | the direction a click picks: ascending for a column other than the active one, and the opposite of the current direction for the active one. `NewKeySortsAscending`, `SameKeyFlips` and `RepeatedClicksAlternate` state its consequences |
| TableView.NewKeySortsAscending | my-app/src/App.jsx:32-35 | clicking a column other than the active one always picks ascending |
| TableView.SameKeyFlips | my-app/src/App.jsx:32-35 | clicking the active column flips its direction |
| TableView.RepeatedClicksAlternate | my-app/src/App.jsx:31-36 | clicking one column twice reverses the direction the first click chose, and a third click restores it |
| TableView.BackendOrderMatchesInitialConfig | my-app/src/App.jsx:10 | the backend's most-viewed-first list is already sorted as the initial configuration (views, descending) says |
| TableView.App.constructor | my-app/src/App.jsx:8-11 | the component starts with no videos, no channel, total 0 and sort configuration (views, descending) |
| TableView.App.ReceiveResponse | my-app/src/App.jsx:18-20 | a response replaces the videos, the channel information and the total, and leaves the sort configuration alone |
| TableView.App.SortData | my-app/src/App.jsx:31-44 | the new sort key is the clicked key, and the direction is the one the direction rule picks. The new videos are a permutation of the old ones, sorted on that key in that direction. Channel information and total are unchanged |

## Left out

- Fetching data from the backend: loading state, `useEffect`, `axios` and the error path. `ReceiveResponse` models only the state updates that follow a successful response.
- Rendering: the JSX table, the icons, and the formatting helpers `formatNumber` and `formatDate`.
- Authentication (`authenticate_youtube`) and all YouTube client calls: `channels().list`, `search().list`, `videos().list` and `list_next`. Their results are parameters of `GetVideos`.
- The Flask routing, `jsonify`, CORS, and the error branch that answers 500.
- `int(...)` parsing of counts that the API delivers as strings. Counts enter the model as natural numbers; a count that fails to parse (which raises in the source) is not modelled.
- Missing fields in an API item (`snippet`, `thumbnails`, `contentDetails`), which raise `KeyError` in the source. The model assumes every item is complete.
- Tie order. Both library sorts are stable, but the contracts leave the relative order of equal values open. `SortedPermutationSameValues` shows that the order of equal values is the only freedom left, and `SortedPermutationUnique` that with distinct values the order is fully determined.
- JavaScript compares strings by UTF-16 code units. `Lexicographic.StrLess` compares Dafny characters, which agree with UTF-16 except for characters outside the Basic Multilingual Plane.
- The table wires `sortData` only to the title and views headers (my-app/src/App.jsx:109 and 118). The model's `Key` also admits likes and publication date. This generalisation is one the program never uses. `a[key]` on any other field is not modelled.
- React's batching of the two state updates in `sortData`. `SortData` reads `sortConfig` before writing it and updates both fields in one call, which is what a single click does.

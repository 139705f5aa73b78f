# My Hacker Stories: the list logic of `App`, in Dafny

`src/App.js` renders a list of "stories" (title, URL, author, comment count,
points, `objectID`). It keeps two pieces of React state. One is the search
term, seeded from browser storage with `localStorage.getItem('search') || ''`.
The other is the story list, seeded with four fixed stories. Two list
operations act on that state:

- **Dismissing a story** (`handleRemoveStory`). It keeps every story whose
  `objectID` differs from the dismissed item's, and the result replaces the
  story list.
- **Searching** (`searchedStories`). It keeps, in order, the stories whose
  lower-cased title contains the lower-cased search term.

Both are single `Array.prototype.filter` calls, so the model is made of pure
functions on `seq` values:

- `seqs.dfy`, module `Seqs`: `Filter`, a model of `Array.prototype.filter`.
  Beside it is an independent description of its result, `KeepsExactly`: an
  order-preserving embedding into the input that hits exactly the positions
  whose element passes the predicate. It is proved in both directions that
  `Filter`'s result is the one and only list with that property. The module
  also proves membership, idempotence, that filters commute, and that a
  filter which everything passes returns its input.
- `strings.dfy`, module `Strings`: `toLowerCase` and `toUpperCase` on ASCII
  letters, and `String.prototype.includes`. `Includes` is computed by
  recursion and proved equal to "the needle occurs at some position".
- `app.dfy`, module `App`: the `Story` record, the initial stories, the
  `||` fallback for the stored term, and the state as a value `AppState`.
  It holds the two handlers, each returning the next state, since
  `setStories` and `setSearchTerm` replace the old value wholesale.
  It also holds `SearchedStories` and the lemmas about dismissing and
  searching.

This `src/App.js` holds a fixed initial list and does no fetching, so no
fetching, reducer or loading state is modelled.

## Model

| member | source | states |
|---|---|---|
| `Seqs.Filter` | src/App.js:51-53 | `filter` returns a list no longer than its input in which every element satisfies the predicate |
| `Seqs.FilterKeepsExactly` | src/App.js:51-53 | `filter`'s result keeps exactly the passing elements, each once, in their original order (an increasing embedding whose image is the passing positions) |
| `Seqs.KeepsExactlyIsFilter` | src/App.js:51-53 | any list that keeps exactly the passing elements in order is `filter`'s result (uniqueness) |
| `Seqs.FilterCharacterized` | src/App.js:51-53 | a list keeps exactly the passing elements in order if and only if it is `filter`'s result |
| `Seqs.FilterMembership` | src/App.js:51-53 | an element is in the result if and only if it is in the input and passes |
| `Seqs.FilterAllPass` | src/App.js:61-63 | when every element passes, `filter` returns its input unchanged |
| `Seqs.FilterIdempotent` | src/App.js:51-53 | filtering the result again with the same predicate changes nothing |
| `Seqs.FilterAgree` | src/App.js:61-63 | predicates that agree on every element of the input give the same result |
| `Seqs.FilterCommutes` | src/App.js:51-63 | two filters give the same list in either order |
| `Strings.LowerChar` | src/App.js:62 | an ASCII upper-case letter becomes its lower-case partner; every other character is kept; no upper-case letter is left |
| `Strings.UpperChar` | src/App.js:62 | an ASCII lower-case letter becomes its upper-case partner, and lowering that gives back the letter; every other character is kept |
| `Strings.ToLower` | src/App.js:62 | `toLowerCase` keeps the length, turns each ASCII upper-case letter into its lower-case partner (the letter 32 code points on), leaves no upper-case letter and keeps every other character |
| `Strings.ToUpper` | src/App.js:62 | `toUpperCase` keeps the length, turns each ASCII lower-case letter into its upper-case partner (the letter 32 code points back), leaves no lower-case letter and keeps every other character |
| `Strings.ToLowerIdempotent` | src/App.js:62 | lowering a lowered string changes nothing |
| `Strings.ToLowerOfUpper` | src/App.js:62 | lowering an upper-cased string gives the same as lowering the original |
| `Strings.Includes` | src/App.js:62 | `includes` is true exactly when the needle occurs at some position of the string |
| `Strings.IncludesEmpty` | src/App.js:62 | every string includes the empty string |
| `Strings.MissingCharacter` | src/App.js:62 | a string lacking one of the needle's characters does not include the needle |
| `Strings.LowerMissing` | src/App.js:62 | a lower-case letter is absent from a lowered string when neither it nor its upper-case partner was in the original |
| `App.InitialSearchTerm` | src/App.js:40-42 | the initial term is the stored string when storage holds one and the empty string when it holds nothing; a stored empty string also gives the empty string |
| `App.Init` | src/App.js:40-44 | the first state holds the four initial stories and the term derived from storage |
| `App.Differs` | src/App.js:52 | the dismissal predicate keeps a story if and only if its `objectID` differs from the dismissed item's |
| `App.RemoveStory` | src/App.js:51-53 | dismissing gives a list no longer than before, in which no story has the dismissed item's `objectID` |
| `App.HandleRemoveStory` | src/App.js:50-55 | the story list is replaced by the filtered list and the search term is unchanged |
| `App.CountWithId` | src/App.js:52 | the number of stories with a given `objectID` is at most the list's length |
| `App.RemoveMembership` | src/App.js:51-53 | a story survives a dismissal if and only if it was listed and has another `objectID` |
| `App.RemoveKeepsOthersInOrder` | src/App.js:51-53 | a list keeps exactly the stories with another `objectID`, in their original order, if and only if it is the dismissal's result |
| `App.RemoveIdempotent` | src/App.js:51-53 | dismissing the same item twice gives the same list as dismissing it once |
| `App.RemoveLength` | src/App.js:51-53 | the result's length is the input's length minus the number of stories carrying the item's `objectID` |
| `App.RemoveAbsentUnchanged` | src/App.js:51-53 | a dismissal leaves the list unchanged if and only if no story carries the item's `objectID` |
| `App.RemoveListedUnique` | src/App.js:4-55 | when `objectID`s are unique, as in the initial stories, dismissing a listed story removes exactly one story |
| `App.CountUnique` | src/App.js:4-37 | with unique `objectID`s, an identifier that occurs is counted once |
| `App.CountAbsent` | src/App.js:52 | an identifier no story carries is counted zero times |
| `App.MatchesTerm` | src/App.js:61-62 | the search predicate passes a story if and only if its lower-cased title includes the lower-cased term |
| `App.SearchStories` | src/App.js:61-63 | every story the search returns has a lower-cased title that includes the lower-cased term, and the result is no longer than the list |
| `App.SearchedStories` | src/App.js:61-63 | the shown list is derived from the state's stories and is no longer than them |
| `App.HandleSearch` | src/App.js:57-59 | typing replaces the search term and leaves the story list unchanged |
| `App.SearchMembership` | src/App.js:61-63 | a story is shown if and only if it is listed and its lower-cased title includes the lower-cased term |
| `App.SearchKeepsMatchesInOrder` | src/App.js:61-63 | a list keeps exactly the matching stories, in their original order, if and only if it is the search result |
| `App.SearchCaseInsensitive` | src/App.js:62 | searching for a term, for its lower-cased form and for its upper-cased form gives the same list |
| `App.MatchIgnoresTitleCase` | src/App.js:62 | upper-casing a story's title does not change whether it matches |
| `App.SearchEmptyTerm` | src/App.js:61-63 | the empty term shows the whole story list unchanged |
| `App.SearchIdempotent` | src/App.js:61-63 | searching the search result again with the same term changes nothing |
| `App.InitialViewShowsAll` | src/App.js:40-44 | with nothing stored, or an empty string stored, the first render shows all four initial stories |
| `App.TypeAll` | src/App.js:57-59 | after a run of keystrokes, the term is the last string typed |
| `App.ClearingSearchShowsAll` | src/App.js:44-63 | any sequence of typing leaves the story list as it was, and clearing the input afterwards shows that full list again |
| `App.DismissUnderSearch` | src/App.js:50-63 | dismissing while a term is active shows the previous search result minus the dismissed item's `objectID` |
| `App.InitialStoriesShape` | src/App.js:4-37 | the initial list holds four stories, "React", "Redux", "Javascript" and "Angular", with the distinct `objectID`s 0, 1, 2 and 4 |
| `App.DismissInitialRemovesOne` | src/App.js:4-55 | dismissing any of the initial stories removes exactly one story |
| `App.DismissReact` | src/App.js:4-55 | dismissing "React" (`objectID` 0) from the initial stories leaves "Redux", "Javascript" and "Angular" in that order |
| `App.ReduxMisses` | src/App.js:62 | a title with no letter d in either case does not match "redux" |
| `App.ReduxMatchesOnlyRedux` | src/App.js:4-37 | of the initial titles, only "Redux" matches the term "redux" |
| `App.ReduxHitsRedux` | src/App.js:14-20 | the title "Redux" matches the term "redux" |
| `App.SearchRedux` | src/App.js:4-63 | searching the initial stories for "redux" shows only the "Redux" story |

## Left out

- Browser storage: `localStorage.getItem` and `setItem`, and the effect that saves the term on every change (src/App.js:41, 46-48), are browser I/O. The stored value is a parameter, `Option<string>`, of `InitialSearchTerm` and `Init`.
- React mechanics: `useState`, re-render scheduling and `useEffect` are not modelled. A handler returns the next `AppState` value instead of calling a setter. `handleSearch` receives the typed string rather than the DOM event it reads `ev.target.value` from.
- Rendering: the `Item`, `List` and `InputWithLabel` components, the JSX markup, the `key` attribute and the focus effect through `useRef` (src/App.js:65-134) are presentation and DOM side effects.
- Strings.ToLower: lowers only the ASCII letters A to Z. JavaScript's `toLowerCase` applies full Unicode case mapping, which can also change a string's length.
- Strings.ToUpper: raises only the ASCII letters a to z, for the same reason. Under full Unicode mapping `App.SearchCaseInsensitive` would not hold for every term; for example, "ß" upper-cases to "SS".
- Strings are sequences of Unicode scalar values. JavaScript strings are UTF-16 code units, which differ only outside the Basic Multilingual Plane.
- `Story.objectID` is an `int`, as in the initial stories. JavaScript's `!==` between a number and a string identifier is always true; identifiers of mixed type are not modelled.
- `numComments` and `points` are unbounded `int`s rather than JavaScript numbers. No operation computes with them.

/**
  The list logic of the `App` component of "My Hacker Stories": the stories
  it holds, the search term it is seeded with, dismissing a story, typing a
  search term, and the list of stories it shows for that term.

  React state is modelled as a value, `AppState`: every handler returns the
  next state, since `setStories` and `setSearchTerm` replace the old value
  wholesale rather than changing it in place.
 */
module App {
  import opened Seqs
  import opened Strings

  /** One search result. Its identity is `objectID`. */
  datatype Story = Story(
    title: string,
    url: string,
    author: string,
    numComments: int,
    points: int,
    objectID: int)

  /** The four stories the component starts with. */
  const InitialStories: seq<Story> := [
    Story("React", "https://reactjs.org/", "Manish", 3, 4, 0),
    Story("Redux", "https://reactjs.org/", "Kumar", 2, 5, 1),
    Story("Javascript", "https://reactjs.org/", "Champak", 8, 3, 2),
    Story("Angular", "https://reactjs.org/", "Borah", 7, 2, 4)
  ]

  /** What the browser's storage returns for a key: a string, or nothing (`null`). */
  datatype Option<T> = None | Some(value: T)

  /** The component's state: the search term as typed and the full story list. */
  datatype AppState = AppState(searchTerm: string, stories: seq<Story>)

  /**
    `storedValue || ''`: the stored term when there is one, the empty
    string otherwise. A stored empty string is falsy, so it too falls back
    to `''`, which is the same value.
   */
  function InitialSearchTerm(stored: Option<string>): (term: string)
    ensures stored.Some? ==> term == stored.value
    ensures stored.None? ==> term == ""
  {
    if stored.Some? && stored.value != "" then stored.value else ""
  }

  /** The state on first render, given what storage holds under "search". */
  function Init(stored: Option<string>): (st: AppState)
    ensures st.stories == InitialStories
    ensures st.searchTerm == InitialSearchTerm(stored)
  {
    AppState(InitialSearchTerm(stored), InitialStories)
  }

  // ---------------------------------------------------------------------
  // Dismissing a story
  // ---------------------------------------------------------------------

  /** The predicate handed to `filter` when `item` is dismissed. */
  function Differs(item: Story): (keep: Story -> bool)
    ensures forall story :: keep(story) <==> story.objectID != item.objectID
  {
    (story: Story) => item.objectID != story.objectID
  }

  /** `stories.filter(story => item.objectID !== story.objectID)`. */
  function RemoveStory(stories: seq<Story>, item: Story): (r: seq<Story>)
    ensures |r| <= |stories|
    ensures forall k :: 0 <= k < |r| ==> r[k].objectID != item.objectID
  {
    Filter(stories, Differs(item))
  }

  /** `handleRemoveStory(item)`: the story list is replaced by the filtered one. */
  function HandleRemoveStory(st: AppState, item: Story): (st': AppState)
    ensures st'.searchTerm == st.searchTerm
    ensures st'.stories == RemoveStory(st.stories, item)
  {
    st.(stories := RemoveStory(st.stories, item))
  }

  /** How many stories carry the identifier `id`. */
  function CountWithId(stories: seq<Story>, id: int): (n: nat)
    ensures n <= |stories|
  {
    if stories == [] then 0
    else (if stories[0].objectID == id then 1 else 0) + CountWithId(stories[1..], id)
  }

  /** A story survives a dismissal exactly when it was there and has another identifier. */
  lemma RemoveMembership(stories: seq<Story>, item: Story, x: Story)
    ensures x in RemoveStory(stories, item) <==> x in stories && x.objectID != item.objectID
  {
    FilterMembership(stories, Differs(item), x);
  }

  /**
    A dismissal keeps every story whose identifier differs from the item's,
    each once and in the original order, and nothing else; the result is
    the only list with that property.
   */
  lemma RemoveKeepsOthersInOrder(stories: seq<Story>, item: Story, r: seq<Story>)
    ensures KeepsExactly(r, stories, Differs(item)) <==> r == RemoveStory(stories, item)
  {
    FilterCharacterized(r, stories, Differs(item));
  }

  /** Dismissing the same item twice is dismissing it once. */
  lemma RemoveIdempotent(stories: seq<Story>, item: Story)
    ensures RemoveStory(RemoveStory(stories, item), item) == RemoveStory(stories, item)
  {
    FilterIdempotent(stories, Differs(item));
  }

  /** A dismissal drops exactly the stories that carry the item's identifier. */
  lemma {:induction false} RemoveLength(stories: seq<Story>, item: Story)
    ensures |RemoveStory(stories, item)| == |stories| - CountWithId(stories, item.objectID)
  {
    if stories != [] {
      RemoveLength(stories[1..], item);
    }
  }

  /** A dismissal leaves the list as it was exactly when no story has the item's identifier. */
  lemma RemoveAbsentUnchanged(stories: seq<Story>, item: Story)
    ensures RemoveStory(stories, item) == stories
        <==> forall k :: 0 <= k < |stories| ==> stories[k].objectID != item.objectID
  {
    if forall k :: 0 <= k < |stories| ==> stories[k].objectID != item.objectID {
      FilterAllPass(stories, Differs(item));
    }
  }

  /** With unique identifiers, dismissing a listed story shortens the list by exactly one. */
  lemma RemoveListedUnique(stories: seq<Story>, item: Story)
    requires item in stories
    requires forall j, k :: 0 <= j < k < |stories| ==> stories[j].objectID != stories[k].objectID
    ensures |RemoveStory(stories, item)| == |stories| - 1
  {
    RemoveLength(stories, item);
    CountUnique(stories, item.objectID);
  }

  /** With unique identifiers, an identifier that occurs does so once. */
  lemma {:induction false} CountUnique(stories: seq<Story>, id: int)
    requires exists k :: 0 <= k < |stories| && stories[k].objectID == id
    requires forall j, k :: 0 <= j < k < |stories| ==> stories[j].objectID != stories[k].objectID
    ensures CountWithId(stories, id) == 1
  {
    var tail := stories[1..];
    if stories[0].objectID == id {
      CountAbsent(tail, id);
    } else {
      var k :| 0 <= k < |stories| && stories[k].objectID == id;
      assert tail[k - 1].objectID == id;
      CountUnique(tail, id);
    }
  }

  /** No story with the identifier means a count of zero. */
  lemma {:induction false} CountAbsent(stories: seq<Story>, id: int)
    requires forall k :: 0 <= k < |stories| ==> stories[k].objectID != id
    ensures CountWithId(stories, id) == 0
  {
    if stories != [] {
      CountAbsent(stories[1..], id);
    }
  }

  // ---------------------------------------------------------------------
  // Searching
  // ---------------------------------------------------------------------

  /** The predicate handed to `filter` for the search term `term`. */
  function MatchesTerm(term: string): (keep: Story -> bool)
    ensures forall story :: keep(story) <==> Includes(ToLower(story.title), ToLower(term))
  {
    (story: Story) => Includes(ToLower(story.title), ToLower(term))
  }

  /** `stories.filter(s => s.title.toLowerCase().includes(term.toLowerCase()))`. */
  function SearchStories(stories: seq<Story>, term: string): (r: seq<Story>)
    ensures |r| <= |stories|
    ensures forall k :: 0 <= k < |r| ==> Includes(ToLower(r[k].title), ToLower(term))
  {
    Filter(stories, MatchesTerm(term))
  }

  /** `searchedStories`: what the list shows for the current state. */
  function SearchedStories(st: AppState): (shown: seq<Story>)
    ensures |shown| <= |st.stories|
  {
    SearchStories(st.stories, st.searchTerm)
  }

  /** `handleSearch(event)`: the term becomes what was typed; the stories stay. */
  function HandleSearch(st: AppState, typed: string): (st': AppState)
    ensures st'.searchTerm == typed
    ensures st'.stories == st.stories
  {
    st.(searchTerm := typed)
  }

  /** A story is shown exactly when it is held and its lowered title contains the lowered term. */
  lemma SearchMembership(stories: seq<Story>, term: string, x: Story)
    ensures x in SearchStories(stories, term)
        <==> x in stories && Includes(ToLower(x.title), ToLower(term))
  {
    FilterMembership(stories, MatchesTerm(term), x);
  }

  /**
    The search keeps every matching story, each once and in the original
    order, and nothing else; the result is the only list with that property.
   */
  lemma SearchKeepsMatchesInOrder(stories: seq<Story>, term: string, r: seq<Story>)
    ensures KeepsExactly(r, stories, MatchesTerm(term)) <==> r == SearchStories(stories, term)
  {
    FilterCharacterized(r, stories, MatchesTerm(term));
  }

  /** Searching for a term, its lower-cased or its upper-cased form gives the same list. */
  lemma SearchCaseInsensitive(stories: seq<Story>, term: string)
    ensures SearchStories(stories, ToLower(term)) == SearchStories(stories, term)
    ensures SearchStories(stories, ToUpper(term)) == SearchStories(stories, term)
  {
    ToLowerIdempotent(term);
    ToLowerOfUpper(term);
    FilterAgree(stories, MatchesTerm(ToLower(term)), MatchesTerm(term));
    FilterAgree(stories, MatchesTerm(ToUpper(term)), MatchesTerm(term));
  }

  /** Upper-casing a story's title does not change whether it matches. */
  lemma MatchIgnoresTitleCase(story: Story, term: string)
    ensures MatchesTerm(term)(story.(title := ToUpper(story.title))) == MatchesTerm(term)(story)
  {
    ToLowerOfUpper(story.title);
  }

  /** The empty term matches every title, so the whole list is shown. */
  lemma SearchEmptyTerm(stories: seq<Story>)
    ensures SearchStories(stories, "") == stories
  {
    forall k | 0 <= k < |stories|
      ensures MatchesTerm("")(stories[k])
    {
      IncludesEmpty(ToLower(stories[k].title));
    }
    FilterAllPass(stories, MatchesTerm(""));
  }

  /** Searching the search result again with the same term changes nothing. */
  lemma SearchIdempotent(stories: seq<Story>, term: string)
    ensures SearchStories(SearchStories(stories, term), term) == SearchStories(stories, term)
  {
    FilterIdempotent(stories, MatchesTerm(term));
  }

  /** With nothing stored, the first render shows every initial story. */
  lemma InitialViewShowsAll(stored: Option<string>)
    requires stored.None? || stored == Some("")
    ensures SearchedStories(Init(stored)) == InitialStories
  {
    SearchEmptyTerm(InitialStories);
  }

  /** The state after typing the strings of `typed`, one change event each, in order. */
  function TypeAll(st: AppState, typed: seq<string>): (st': AppState)
    ensures typed != [] ==> st'.searchTerm == typed[|typed| - 1]
    decreases |typed|
  {
    if typed == [] then st else TypeAll(HandleSearch(st, typed[0]), typed[1..])
  }

  /**
    Searching never loses a story: typing any sequence of terms leaves the
    story list as it was, and clearing the input afterwards shows all of it.
   */
  lemma {:induction false} ClearingSearchShowsAll(st: AppState, typed: seq<string>)
    ensures TypeAll(st, typed).stories == st.stories
    ensures SearchedStories(TypeAll(st, typed + [""])) == st.stories
    decreases |typed|
  {
    if typed != [] {
      ClearingSearchShowsAll(HandleSearch(st, typed[0]), typed[1..]);
      assert (typed + [""])[1..] == typed[1..] + [""];
    } else {
      SearchEmptyTerm(st.stories);
    }
  }

  /**
    Dismissing a story while a term is active shows the previous search
    result with that story's identifier removed.
   */
  lemma DismissUnderSearch(st: AppState, item: Story)
    ensures SearchedStories(HandleRemoveStory(st, item)) == RemoveStory(SearchedStories(st), item)
  {
    FilterCommutes(st.stories, Differs(item), MatchesTerm(st.searchTerm));
  }

  // ---------------------------------------------------------------------
  // The component's own data
  // ---------------------------------------------------------------------

  /** The initial list holds four stories with distinct identifiers 0, 1, 2 and 4. */
  lemma InitialStoriesShape()
    ensures |InitialStories| == 4
    ensures InitialStories[0].title == "React" && InitialStories[0].objectID == 0
    ensures InitialStories[1].title == "Redux" && InitialStories[1].objectID == 1
    ensures InitialStories[2].title == "Javascript" && InitialStories[2].objectID == 2
    ensures InitialStories[3].title == "Angular" && InitialStories[3].objectID == 4
    ensures forall j, k :: 0 <= j < k < |InitialStories| ==>
      InitialStories[j].objectID != InitialStories[k].objectID
  {
  }

  /** Dismissing any initial story removes exactly that one. */
  lemma DismissInitialRemovesOne(item: Story)
    requires item in InitialStories
    ensures |RemoveStory(InitialStories, item)| == |InitialStories| - 1
  {
    InitialStoriesShape();
    RemoveListedUnique(InitialStories, item);
  }

  /** Dismissing the first initial story ("React", identifier 0) leaves the other three. */
  lemma DismissReact()
    ensures RemoveStory(InitialStories, InitialStories[0]) == InitialStories[1..]
  {
    assert RemoveStory(InitialStories[1..], InitialStories[0]) == InitialStories[1..] by {
      RemoveAbsentUnchanged(InitialStories[1..], InitialStories[0]);
    }
  }

  /** A title with no letter d in either case cannot contain "redux". */
  lemma ReduxMisses(story: Story)
    requires 'd' !in story.title && 'D' !in story.title
    ensures !MatchesTerm("redux")(story)
  {
    assert 'd' in ToLower("redux") by {
      assert ToLower("redux")[2] == 'd';
    }
    LowerMissing(story.title, 'd');
    MissingCharacter(ToLower(story.title), ToLower("redux"), 'd');
  }

  /** Of the initial titles, only "Redux" contains "redux", ignoring case. */
  lemma ReduxMatchesOnlyRedux()
    ensures !MatchesTerm("redux")(InitialStories[0])
    ensures MatchesTerm("redux")(InitialStories[1])
    ensures !MatchesTerm("redux")(InitialStories[2])
    ensures !MatchesTerm("redux")(InitialStories[3])
  {
    ReduxMisses(InitialStories[0]);
    ReduxMisses(InitialStories[2]);
    ReduxMisses(InitialStories[3]);
    ReduxHitsRedux();
  }

  /** The title "Redux" contains "redux", ignoring case. */
  lemma ReduxHitsRedux()
    ensures MatchesTerm("redux")(InitialStories[1])
  {
    var title, term := ToLower("Redux"), ToLower("redux");
    assert title == term by {
      assert |title| == |term| == 5;
      assert title[0] == term[0] == 'r';
      assert forall i :: 1 <= i < 5 ==> title[i] == "Redux"[i] == "redux"[i] == term[i];
    }
    assert OccursAt(title, term, 0);
  }

  /** "redux" finds only the story titled "Redux". */
  lemma SearchRedux()
    ensures SearchStories(InitialStories, "redux") == [InitialStories[1]]
  {
    var s, p := InitialStories, MatchesTerm("redux");
    ReduxMatchesOnlyRedux();
    assert Filter(s[3..], p) == [];
    assert Filter(s[2..], p) == [];
    assert Filter(s[1..], p) == [s[1]];
  }
}
